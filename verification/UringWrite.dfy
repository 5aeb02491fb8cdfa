/**
  * The write side of one connection in src/dyna-aio-uring.c: uaio_send_raw, dyn_aio_sendfile, uaio_wq_pump, the
  * write-node part of uaio_dispatch, dyn_aio_queued and the write part of dyn_aio_close.
  *
  * The kernel is an environment: it answers direct sends, may have no submission entry to give, and finishes a
  * submitted operation at a time and with a count of its own choice. Completions carry what it did. A callback may
  * call back in, so each callback of a pump or of a close is a step of its own.
  */
module UringWrite {
  import opened Wire
  import opened Attempts

  const EAGAIN: int := 11
  const ECONNRESET: int := 104

  /** Callbacks, oldest first; a call is named by its number. */
  type Log = seq<Callback<nat>>

  /** A C int that a size is cast to. */
  function Int32(n: nat): (r: int) {
    (n + 0x8000_0000) % 0x1_0000_0000 - 0x8000_0000
  }

  /** The step a file node is in: nothing submitted, file to pipe, pipe to socket. */
  datatype Step = NoStep | In | Out

  /**
    * A write node. `data` of a file node is what the file holds in the requested range, which ends early at the end
    * of the file; it is known to the kernel only.
    */
  datatype Node =
    | Send(id: nat, buf: seq<Byte>, off: nat)
    | File(id: nat, data: seq<Byte>, len: nat, cap: nat, rem: nat, inPipe: nat, sent: nat, eof: bool, step: Step)

  /** The bytes of a node that have not been acknowledged. */
  ghost function Rest(w: Node): (r: seq<Byte>) {
    match w
    case Send(_, buf, off) => if off <= |buf| then buf[off..] else []
    case File(_, data, _, _, _, _, sent, _, _) => if sent <= |data| then data[sent..] else []
  }

  /** The pump conserves bytes: what was sent, what is in the pipe and what is still to read make up the request. */
  ghost predicate ValidNode(w: Node) {
    match w
    case Send(_, buf, off) => off < |buf|
    case File(_, data, len, cap, rem, inPipe, sent, eof, step) =>
      && sent + inPipe + rem == len && cap > 0 && |data| <= len && sent + inPipe <= |data|
      && (eof ==> sent + inPipe == |data|)
  }

  /** A node as it is queued. */
  ghost predicate Fresh(w: Node) {
    match w
    case Send(_, buf, off) => off == 0 && buf != []
    case File(_, data, len, cap, rem, inPipe, sent, eof, step) =>
      sent == 0 && inPipe == 0 && rem == len && len > 0 && cap > 0 && |data| <= len && !eof && step == NoStep
  }

  /** What one node was asked to deliver, and what it has delivered. */
  function Requested(w: Node): (n: nat) {
    match w case Send(_, buf, _) => |buf| case File(_, _, len, _, _, _, _, _, _) => len
  }

  function Delivered(w: Node): (n: nat) {
    match w case Send(_, _, off) => off case File(_, _, _, _, _, _, sent, _, _) => sent
  }

  /** An operation in the submission ring, with its result once the kernel has done it. */
  datatype Op = SendOp(want: nat) | InOp(want: nat) | OutOp(want: nat)
  datatype Entry = Waiting(op: Op) | Finished(op: Op, res: int)

  /** The bytes a finished but unacknowledged operation has put on the wire. */
  function OnWire(ring: seq<Entry>): (k: nat) {
    if |ring| == 1 && ring[0].Finished? && !ring[0].op.InOp? && ring[0].res > 0 then ring[0].res else 0
  }

  ghost function Bytes(queue: seq<Node>): (b: seq<Byte>) {
    if queue == [] then [] else Rest(queue[0]) + Bytes(queue[1..])
  }

  lemma {:induction false} BytesPush(queue: seq<Node>, w: Node)
    ensures Bytes(queue + [w]) == Bytes(queue) + Rest(w)
    decreases |queue|
  {
    if queue == [] {
      assert queue + [w] == [w] && [w][1..] == [];
      assert Rest(w) + [] == Rest(w);
    } else {
      assert (queue + [w])[1..] == queue[1..] + [w];
      BytesPush(queue[1..], w);
      assert Rest(queue[0]) + (Bytes(queue[1..]) + Rest(w)) == (Rest(queue[0]) + Bytes(queue[1..])) + Rest(w);
    }
  }

  /** What the current node and the finished operation leave to put on the wire. */
  ghost function Pending(cur: seq<Node>, ring: seq<Entry>): (b: seq<Byte>) {
    if cur == [] then []
    else if OnWire(ring) <= |Rest(cur[0])| then Rest(cur[0])[OnWire(ring)..] else []
  }

  /** The operation in the ring is one the current node asked for; it has done no more than that. */
  ghost predicate Matches(w: Node, e: Entry) {
    match w
    case Send(_, buf, off) =>
      off < |buf| && e.op == SendOp(|buf| - off) && (e.Finished? ==> e.res <= |buf| - off)
    case File(_, data, len, cap, rem, inPipe, sent, eof, step) =>
      if step == In then
        // the file is read only into an empty pipe
        && inPipe == 0 && rem > 0 && e.op == InOp(if rem < cap then rem else cap) && !eof
        && (e.Finished? ==> e.res <= e.op.want && sent + e.res <= |data| && (e.res == 0 ==> sent == |data|))
      else
        step == Out && inPipe > 0 && e.op == OutOp(inPipe) && (e.Finished? ==> e.res <= inPipe)
  }

  /**
    * An accepted call, numbered by its place among them. A send asked for `requested` bytes of which `direct` went out
    * during the call; `busy` says that a write was current or queued. A file held `held` bytes of its range.
    */
  datatype Call = Sending(requested: nat, direct: nat, busy: bool) | Filing(held: nat)

  /** The bytes a successful callback reports: a send that went out directly in part reports only the rest. */
  function Due(c: Call): (n: int) {
    match c
    case Sending(requested, direct, _) => if direct == requested then requested else requested - direct
    case Filing(held) => held
  }

  /** The length asked for is reported exactly when none or all of it went out during the call. */
  lemma ReportsLength(c: Call)
    requires c.Sending? && c.direct <= c.requested < 0x8000_0000 && ValidCall(c)
    ensures Due(c) >= 0 && (Int32(Due(c)) == c.requested <==> c.direct == 0 || c.direct == c.requested)
    ensures c.busy ==> Int32(Due(c)) == c.requested
  {
    Int32Exact(Due(c));
  }

  /** Past a current or queued write no byte goes out directly. */
  predicate ValidCall(c: Call) {
    c.Sending? ==> c.direct <= c.requested && (c.busy ==> c.direct == 0)
  }

  /** The submission of a node that a close left behind: the kernel may still do it. */
  datatype Orphan = Orphan(w: Node, e: Entry)

  /** A submission left behind belongs to a valid node, and if it can still move bytes its write has failed. */
  ghost predicate LeftBehind(orphans: seq<Orphan>, failed: bool) {
    forall i :: 0 <= i < |orphans| ==>
      && ValidNode(orphans[i].w) && Matches(orphans[i].w, orphans[i].e)
      && (orphans[i].e.Waiting? && !orphans[i].e.op.InOp? ==> failed)
  }

  /** What has happened so far. */
  datatype History = History(
    calls: seq<Call>,
    ends: seq<bool>,     // for each callback made, whether its write delivered everything
    wire: seq<Byte>,
    accepted: seq<Byte>, // the bytes accepted, in call order
    failed: bool         // a write has ended before all its bytes were on the wire
  )

  function NodeIds(nodes: seq<Node>): (ids: seq<nat>)
    ensures |ids| == |nodes|
  {
    seq(|nodes|, i requires 0 <= i < |nodes| => nodes[i].id)
  }

  function Numbers(n: nat): (ids: seq<nat>)
    ensures |ids| == n
  {
    seq(n, i requires 0 <= i < n => i)
  }

  /** Every accepted call has had its callback, waits for the one of a close or is alive in one node, once. */
  ghost predicate Once(n: nat, log: Log, cur: seq<Node>, queue: seq<Node>, closing: Log) {
    multiset(Numbers(n))
      == multiset(LogIds(log)) + multiset(NodeIds(cur)) + multiset(NodeIds(queue)) + multiset(LogIds(closing))
  }

  /** A node delivers what its call is due. */
  ghost predicate Owns(calls: seq<Call>, w: Node) {
    w.id < |calls| && |Content(w)| == Due(calls[w.id])
  }

  ghost predicate AllOwned(calls: seq<Call>, cur: seq<Node>, queue: seq<Node>) {
    && (forall i :: 0 <= i < |cur| ==> Owns(calls, cur[i]))
    && (forall i :: 0 <= i < |queue| ==> Owns(calls, queue[i]))
  }

  /** Every callback after a delivery reports what its call is due; any other reports an error or follows a failure. */
  ghost predicate Reported(h: History, log: Log) {
    && |h.ends| == |log| && (forall i :: 0 <= i < |h.calls| ==> ValidCall(h.calls[i]))
    && (forall i :: 0 <= i < |log| ==>
          && log[i].id < |h.calls|
          && if h.ends[i] then log[i].result == Int32(Due(h.calls[log[i].id])) else log[i].result < 0 || h.failed)
  }

  /** The callbacks a close has still to make. */
  ghost predicate Resetting(n: nat, closing: Log) {
    forall i :: 0 <= i < |closing| ==> closing[i].id < n && closing[i].result == -ECONNRESET
  }

  /** At most one node is current, it alone has a submission, and the queued ones are untouched. */
  ghost predicate Shape(cur: seq<Node>, queue: seq<Node>, ring: seq<Entry>) {
    && |cur| <= 1 && |ring| == |cur|
    && (cur != [] ==> ValidNode(cur[0]) && Matches(cur[0], ring[0]))
    && (forall i :: 0 <= i < |queue| ==> Fresh(queue[i]))
  }

  ghost predicate AllFresh(queue: seq<Node>) {
    forall i :: 0 <= i < |queue| ==> Fresh(queue[i])
  }

  class WriteSide {
    /** w_cur, as a sequence of at most one node. */
    var cur: seq<Node>
    /** w_qhead .. w_qtail. */
    var queue: seq<Node>
    /** The write submissions of this connection the kernel holds. */
    var ring: seq<Entry>
    /** The calls of uaio_wq_pump that have not returned yet. */
    var pumping: nat
    /** The callbacks a close has still to make. */
    var closing: Log
    /** The submissions of nodes that a close has marked dead. */
    var orphans: seq<Orphan>
    /** The number of the next call that is accepted. */
    var next: nat
    /** The callbacks made, oldest first. */
    var log: Log
    ghost var h: History

    /** What holds of the callbacks, with `cur` as given. */
    ghost predicate Books(cur: seq<Node>)
      reads this`queue, this`closing, this`log, this`h
    {
      && Once(|h.calls|, log, cur, queue, closing) && AllOwned(h.calls, cur, queue)
      && Reported(h, log) && Resetting(|h.calls|, closing)
    }

    /** Nothing is queued without a submission being out or a pump at work. */
    ghost predicate Valid()
      reads this
    {
      && Shape(cur, queue, ring) && Books(cur) && next == |h.calls| && LeftBehind(orphans, h.failed)
      && (queue != [] ==> cur != [] || pumping > 0)
      && (!h.failed ==> h.wire + Pending(cur, ring) + Bytes(queue) == h.accepted)
    }

    constructor ()
      ensures Valid() && h == History([], [], [], [], false)
      ensures cur == [] && queue == [] && ring == [] && pumping == 0 && closing == [] && log == [] && orphans == []
      ensures next == 0
    {
      cur, queue, ring, pumping, closing, log, orphans, next := [], [], [], 0, [], [], [], 0;
      h := History([], [], [], [], false);
      new;
      NothingYet();
    }

    /** On the wire is a prefix of what was accepted, in call order, until a write fails. */
    lemma Ordered()
      requires Valid() && !h.failed
      ensures h.wire <= h.accepted
      ensures |ring| <= 1
    {
      hide Bytes, Pending, AllFresh, Matches, ValidNode, Books, Fresh;
      IsPrefix(h.wire, Pending(cur, ring), Bytes(queue), h.accepted);
    }

    /** With nothing left waiting every accepted call has had exactly one callback. */
    lemma AllCalledBack()
      requires Valid() && cur == [] && queue == [] && closing == []
      ensures multiset(LogIds(log)) == multiset(Numbers(|h.calls|))
    {
      assert NodeIds(cur) == [] && LogIds(closing) == [];
    }

    /** Between taking a completion and submitting again: the current node waits, the ring is empty. */
    ghost predicate Held()
      reads this
    {
      && |cur| == 1 && ring == [] && AllFresh(queue) && Books(cur) && next == |h.calls| && LeftBehind(orphans, h.failed)
      && (!h.failed ==> h.wire + Rest(cur[0]) + Bytes(queue) == h.accepted)
    }

    /** uaio_wnode_done: the node is gone, its callback is made, and a pump follows. */
    method NodeDone(result: int, ok: bool)
      requires Held()
      requires if ok then Rest(cur[0]) == [] && result == Int32(|Content(cur[0])|) else result < 0 || Rest(cur[0]) != []
      modifies this`cur, this`pumping, this`log, this`h
      ensures Valid() && cur == [] && pumping == old(pumping) + 1
      ensures log == old(log) + [Callback(old(cur[0].id), result)]
      ensures h == Ending(old(h), old(Rest(cur[0])) != [], ok)
    {
      hide Once, AllOwned, Reported, Bytes, Rest, Pending, Content, Fresh;
      var w := cur[0];
      OnceDone(|h.calls|, log, cur, queue, closing, result);
      OwnedDone(h.calls, cur, queue);
      ReportedPush(h, log, w, result, ok, Rest(w) != []);
      NoRest(h.wire, Rest(w), Bytes(queue));
      log, h := log + [Callback(w.id, result)], Ending(h, Rest(w) != [], ok);
      cur, pumping := [], pumping + 1;
    }

    /** Submitting the next operation of the current node. */
    method Submit(op: Op)
      requires Held() && ValidNode(cur[0]) && Matches(cur[0], Waiting(op))
      modifies this`ring
      ensures Valid() && ring == [Waiting(op)]
    {
      hide Once, AllOwned, Reported, Bytes;
      ring := [Waiting(op)];
      assert Rest(cur[0])[0..] == Rest(cur[0]);
    }

    /** One turn of uaio_wq_pump: it returns, submits the next queued node, or fails it for want of an entry. */
    method PumpTurn(sqe: bool)
      requires Valid() && pumping > 0
      modifies this`cur, this`queue, this`ring, this`pumping, this`log, this`h
      ensures Valid()
      ensures
        if old(cur) != [] || old(queue) == [] then
          && pumping == old(pumping) - 1 && cur == old(cur) && queue == old(queue) && ring == old(ring)
          && log == old(log) && h == old(h)
        else
          && queue == old(queue)[1..]
          && if sqe then
               && pumping == old(pumping) - 1 && cur == [Begun(old(queue[0]))] && log == old(log) && h == old(h)
               && ring == [Waiting(FirstOp(old(queue[0])))]
             else
               && pumping == old(pumping) && cur == [] && log == old(log) + [Callback(old(queue[0].id), -EAGAIN)]
               && h == Ending(old(h), old(Rest(queue[0])) != [], false)
    {
      hide Once, AllOwned, Reported, Resetting, Bytes, Rest, Pending, Content, Fresh;
      hide Matches, ValidNode, Shape, AllFresh;
      if cur != [] || queue == [] {
        pumping := pumping - 1;
        return;
      }
      var w := queue[0];
      ShapeTake(cur, queue, ring);
      OnceTake(|h.calls|, log, queue, closing, Begun(w));
      OwnedTake(h.calls, queue, Begun(w));
      TakeFirst(h.wire, queue);
      RestBegun(w);
      NothingLeft();
      pumping, cur, queue := pumping - 1, [Begun(w)], queue[1..];
      if sqe {
        Submit(FirstOp(w));
      } else {
        NodeDone(-EAGAIN, false);
      }
    }

    // ----- calls -----

    /** The direct sends of uaio_send_raw, while nothing is queued or submitted. */
    method DirectSends(buf: seq<Byte>, answers: seq<Answer>) returns (ok: bool, off: nat)
      requires buf != []
      modifies this`h
      ensures off == Reach(0, |buf|, answers) && ok == (Stop(0, |buf|, |buf|, answers) == 0)
      ensures h == old(h).(wire := old(h.wire) + buf[..off])
    {
      hide Reach, Stop;
      ok, off := true, 0;
      var i := 0;
      assert h.wire == h.wire + buf[..0] && answers[0..] == answers;
      while i < |answers|
        invariant 0 <= i <= |answers| && off < |buf| && ok && h == old(h).(wire := old(h.wire) + buf[..off])
        invariant Reach(off, |buf|, answers[i..]) == Reach(0, |buf|, answers)
        invariant Stop(off, |buf|, |buf|, answers[i..]) == Stop(0, |buf|, |buf|, answers)
      {
        RowStep(off, |buf|, |buf|, answers, i);
        match answers[i] {
          case Sent(n) =>
            var k := Taken(n, |buf| - off);
            MoreSent(old(h.wire), buf, off, k);
            h := h.(wire := h.wire + buf[off..off + k]);
            off := off + k;
            if off >= |buf| {
              RowEnd(off, |buf|, |buf|, answers[i + 1..]);
              return;
            }
          case Interrupted =>
          case WouldBlock => return;
          case Failure(_) =>
            ok := false;
            return;
        }
        i := i + 1;
      }
      RowEnd(off, |buf|, |buf|, answers[i..]);
    }

    /**
      * uaio_send_raw: a send of no bytes, one behind others, or one past an empty queue, which is attempted at once.
      * The call that is accepted gets the number |h.calls|.
      */
    method SendRaw(buf: seq<Byte>, answers: seq<Answer>) returns (ok: bool)
      requires Valid()
      modifies this`queue, this`pumping, this`log, this`next, this`h
      ensures Valid()
      ensures buf == [] ==>
        && ok && h == Done(old(h), Sending(0, 0, old(cur) != [] || old(queue) != []), [])
        && log == old(log) + [Callback(|old(h.calls)|, 0)]
        && queue == old(queue) && pumping == old(pumping)
      ensures buf != [] && (old(cur) != [] || old(queue) != []) ==>
        && ok && h == Accepting(old(h), Sending(|buf|, 0, true), buf) && log == old(log)
        && queue == old(queue) + [Send(|old(h.calls)|, buf, 0)] && pumping == old(pumping) + 1
      ensures buf != [] && old(cur) == [] && old(queue) == [] ==>
        && (!ok <==> exists i: nat :: RefusedAt(|buf|, answers, i))
        && SentAtOnce(old(h), old(log), old(pumping), buf, Position(0, |buf|, answers, Passed(answers)), ok)
    {
      hide Valid, RefusedAt, Position, Passed, SentAtOnce;
      if buf == [] {
        SendNothing();
        return true;
      }
      if cur == [] && queue == [] {
        ok := SendNow(buf, answers);
        return;
      }
      ok := true;
      SendBehind(buf);
    }

    /** A send behind others is queued whole. */
    method SendBehind(buf: seq<Byte>)
      requires Valid() && buf != []
      modifies this`queue, this`pumping, this`next, this`h
      ensures Valid() && queue == old(queue) + [Send(|old(h.calls)|, buf, 0)] && pumping == old(pumping) + 1
      ensures h == Accepting(old(h), Sending(|buf|, 0, true), buf)
    {
      hide Shape, Books, Bytes, Pending;
      assert buf[0..] == buf;
      Enqueue(Send(next, buf, 0), Sending(|buf|, 0, true), buf);
    }

    /** A send past an empty queue of which the socket took `r` bytes: refused, done, or the rest is queued. */
    ghost predicate SentAtOnce(h0: History, log0: Log, pumping0: nat, buf: seq<Byte>, r: nat, ok: bool)
      requires r <= |buf|
      reads this
    {
      var h1 := h0.(wire := h0.wire + buf[..r]);
      if !ok then
        h == h1.(failed := h0.failed || r > 0) && log == log0 && queue == [] && pumping == pumping0
      else if r == |buf| then
        && h == Done(h1, Sending(|buf|, r, false), buf) && log == log0 + [Callback(|h0.calls|, Int32(|buf|))]
        && queue == [] && pumping == pumping0
      else
        && h == Accepting(h1, Sending(|buf|, r, false), buf) && log == log0
        && queue == [Send(|h0.calls|, buf[r..], 0)] && pumping == pumping0 + 1
    }

    method SendNothing()
      requires Valid()
      modifies this`log, this`next, this`h
      ensures Valid() && h == Done(old(h), Sending(0, 0, cur != [] || queue != []), [])
      ensures log == old(log) + [Callback(|old(h.calls)|, 0)]
    {
      hide Shape, Once, AllOwned, Reported, Resetting, Bytes, Pending;
      ghost var c := Sending(0, 0, cur != [] || queue != []);
      CallDone(h, log, cur, queue, closing, c, [], 0);
      assert h.accepted + [] == h.accepted;
      log, next, h := log + [Callback(next, 0)], next + 1, Done(h, c, []);
    }

    /** A send past an empty queue. */
    method SendNow(buf: seq<Byte>, answers: seq<Answer>) returns (ok: bool)
      requires Valid() && cur == [] && queue == [] && buf != []
      modifies this`queue, this`pumping, this`log, this`next, this`h
      ensures Valid() && (!ok <==> exists i: nat :: RefusedAt(|buf|, answers, i))
      ensures SentAtOnce(old(h), old(log), old(pumping), buf, Position(0, |buf|, answers, Passed(answers)), ok)
    {
      hide Shape, Once, AllOwned, Reported, Resetting, Bytes, Reach, Stop, Pending, RefusedAt, Position, Passed;
      ReachIs(0, |buf|, answers);
      SendRefused(|buf|, answers);
      NothingLeft();
      ShapeEmpty(ring);
      var off;
      ok, off := DirectSends(buf, answers);
      ReportedWire(old(h), h, log);
      if !ok {
        ReportedFailed(h, log, off > 0);
        h := h.(failed := h.failed || off > 0);
        assert off == 0 ==> h.wire == old(h.wire);
        return;
      }
      if off >= |buf| {
        CallDone(h, log, [], [], closing, Sending(|buf|, off, false), buf, Int32(|buf|));
        SentAll(old(h.wire), buf);
        log, next, h := log + [Callback(next, Int32(|buf|))], next + 1, Done(h, Sending(|buf|, off, false), buf);
        return;
      }
      SentSome(old(h.wire), buf, off);
      Enqueue(Send(next, buf[off..], 0), Sending(|buf|, off, false), buf);
    }

    /** The end of a call that queues a node: `total` is what the call asked to send, some of it sent already. */
    method Enqueue(w: Node, ghost c: Call, ghost total: seq<Byte>)
      requires Shape(cur, queue, ring) && Books(cur) && LeftBehind(orphans, h.failed) && Fresh(w) && ValidCall(c)
      requires w.id == next == |h.calls| && |Content(w)| == Due(c)
      requires !h.failed ==> h.wire + Pending(cur, ring) + Bytes(queue) + Rest(w) == h.accepted + total
      modifies this`queue, this`pumping, this`next, this`h
      ensures Valid() && queue == old(queue) + [w] && pumping == old(pumping) + 1 && h == Accepting(old(h), c, total)
    {
      hide Shape, Once, AllOwned, Reported, Resetting, Bytes, Content, Pending, Rest, Fresh;
      CallQueued(h, log, cur, queue, closing, c, total, w);
      ShapePush(cur, queue, ring, w);
      BytesPush(queue, w);
      Regroup(h.wire + Pending(cur, ring), Bytes(queue), Rest(w));
      queue, pumping, next, h := queue + [w], pumping + 1, next + 1, Accepting(h, c, total);
    }

    /** dyn_aio_sendfile on a file holding `data` in the requested range of `len` bytes. */
    method SendFile(data: seq<Byte>, len: nat, cap: nat) returns (ok: bool)
      requires Valid() && |data| <= len && cap > 0
      modifies this`queue, this`pumping, this`log, this`next, this`h
      ensures Valid() && (ok <==> len == 0 || (len <= 0xFFFF_FFFF && NoFile(cur) && NoFile(old(queue))))
      ensures !ok ==> unchanged(this)
      ensures ok && len == 0 ==>
        && h == Done(old(h), Filing(0), []) && log == old(log) + [Callback(|old(h.calls)|, 0)]
        && queue == old(queue) && pumping == old(pumping)
      ensures ok && len > 0 ==>
        && h == Accepting(old(h), Filing(|data|), data) && log == old(log) && pumping == old(pumping) + 1
        && queue == old(queue) + [File(|old(h.calls)|, data, len, cap, len, 0, 0, false, NoStep)]
    {
      hide Shape, Once, AllOwned, Reported, Resetting, Bytes, Pending;
      if len == 0 {
        CallDone(h, log, cur, queue, closing, Filing(0), [], 0);
        assert h.accepted + [] == h.accepted;
        log, next, h := log + [Callback(next, 0)], next + 1, Done(h, Filing(0), []);
        return true;
      }
      if len > 0xFFFF_FFFF {
        return false;
      }
      var i := 0;
      while i < |cur|
        invariant 0 <= i <= |cur| && (forall k :: 0 <= k < i ==> !cur[k].File?)
      {
        if cur[i].File? {
          return false;
        }
        i := i + 1;
      }
      i := 0;
      while i < |queue|
        invariant 0 <= i <= |queue| && (forall k :: 0 <= k < i ==> !queue[k].File?)
      {
        if queue[i].File? {
          return false;
        }
        i := i + 1;
      }
      assert data[0..] == data;
      Enqueue(File(next, data, len, cap, len, 0, 0, false, NoStep), Filing(|data|), data);
      ok := true;
    }

    // ----- the kernel -----

    /** The kernel does the operation it holds; a send or a pipe-to-socket splice puts bytes on the wire. */
    method Kernel(res: int)
      requires Valid() && ring != [] && ring[0].Waiting? && Matches(cur[0], Finished(ring[0].op, res))
      modifies this`ring, this`h
      ensures Valid() && ring == [Finished(old(ring[0].op), res)]
      ensures |Rest(cur[0])| >= OnWire(ring) && h == old(h).(wire := old(h.wire) + Rest(cur[0])[..OnWire(ring)])
    {
      hide Bytes, Rest, Once, AllOwned, Resetting, Reported;
      var op := ring[0].op;
      ghost var rest := Rest(cur[0]);
      MatchesRest(cur[0], Finished(op, res));
      assert rest[0..] == rest;
      ring := [Finished(op, res)];
      MoveToWire(h.wire, rest, OnWire(ring), Bytes(queue));
      ReportedWire(h, h.(wire := h.wire + rest[..OnWire(ring)]), log);
      h := h.(wire := h.wire + rest[..OnWire(ring)]);
    }

    // ----- completions -----

    /** The end of a node: its callback, and whether it delivered everything. */
    ghost predicate Ended(w: Node, log0: Log, h0: History, pumping0: nat, r: int, ok: bool)
      reads this
    {
      && cur == [] && log == log0 + [Callback(w.id, r)] && pumping == pumping0 + 1
      && (ok ==> r == Int32(|Content(w)|) && h == Ending(h0, false, true))
      && (!ok ==> (r < 0 || h.failed) && (h == Ending(h0, false, false) || h == Ending(h0, true, false)))
    }

    /** A finished send: the rest is submitted again, or the node ends. */
    method CompleteSend(sqe: bool) returns (finished: bool, ok: bool, r: int)
      requires Valid() && cur != [] && cur[0].Send? && ring[0].Finished?
      modifies this`cur, this`ring, this`pumping, this`log, this`h
      ensures Valid()
      ensures !finished ==> cur != [] && log == old(log) && h == old(h) && pumping == old(pumping)
      ensures finished ==>
        && Ended(old(cur[0]), old(log), old(h), old(pumping), r, ok) && (!ok ==> old(ring[0].res) <= 0 || !sqe)
      ensures
        var w, res := old(cur[0]), old(ring[0].res);
        var off := if res > 0 then w.off + res else w.off;
        && finished == !(sqe && (res > 0 || res == -EAGAIN) && off < |w.buf|)
        && (finished ==> ok == (off == |w.buf|) && r == if res < 0 then res else Int32(off))
        && (!finished ==> cur == [w.(off := off)] && ring == [Waiting(SendOp(|w.buf| - off))])
    {
      hide Bytes, Once, AllOwned, Reported, Resetting;
      var w, res := cur[0], ring[0].res;
      ring := [];
      if res > 0 {
        w := w.(off := w.off + res);
      }
      BooksSame(cur, w);
      cur := [w];
      finished, ok, r := true, w.off == |w.buf|, if res < 0 then res else Int32(w.off);
      if (res > 0 || res == -EAGAIN) && w.off < |w.buf| {
        if sqe {
          Submit(SendOp(|w.buf| - w.off));
          finished := false;
          return;
        }
      }
      NodeDone(r, ok);
    }

    /** What a step of a node does not change: which call it belongs to and what it is to deliver. */
    lemma BooksSame(old_: seq<Node>, w: Node)
      requires |old_| == 1 && Books(old_) && w.id == old_[0].id && Content(w) == Content(old_[0])
      ensures Books([w])
    {
      hide Reported, Resetting;
      OnceSame(|h.calls|, log, old_, w, queue, closing);
      assert Owns(h.calls, old_[0]);
    }

    /** A splice from the file: bytes in the pipe go out next; at the file's end an empty pipe ends the node. */
    method CompleteIn(sqe: bool) returns (finished: bool, ok: bool, r: int)
      requires Valid() && cur != [] && cur[0].File? && cur[0].step == In && ring[0].Finished?
      modifies this`cur, this`ring, this`pumping, this`log, this`h
      ensures Valid()
      ensures !finished ==> cur != [] && log == old(log) && h == old(h) && pumping == old(pumping)
      ensures finished ==>
        && Ended(old(cur[0]), old(log), old(h), old(pumping), r, ok) && (!ok ==> old(ring[0].res) <= 0 || !sqe)
      ensures
        var w, res := old(cur[0]), old(ring[0].res);
        && finished == (res == 0 || (res < 0 && res != -EAGAIN) || !sqe)
        && (finished ==> ok == (res == 0) && r == if res == 0 then Int32(w.sent) else if res > 0 then -EAGAIN else res)
        && (!finished && res > 0 ==>
              && cur == [w.(rem := w.rem - res, inPipe := w.inPipe + res, step := Out)]
              && ring == [Waiting(OutOp(w.inPipe + res))])
        && (!finished && res < 0 ==> cur == [w] && ring == [Waiting(InOp(if w.rem < w.cap then w.rem else w.cap))])
    {
      hide Bytes, Once, AllOwned, Reported, Resetting;
      var w, res := cur[0], ring[0].res;
      ring := [];
      finished, ok, r := true, false, res;
      assert Rest(w)[0..] == Rest(w);
      if res > 0 {
        w := w.(rem := w.rem - res, inPipe := w.inPipe + res);
      } else if res == 0 {
        w := w.(eof := true);
      } else if res != -EAGAIN {
        NodeDone(res, false);
        return;
      }
      if w.inPipe > 0 {
        w := w.(step := Out);
      } else if w.eof {
        ok, r := true, Int32(w.sent);
        BooksSame(cur, w);
        cur := [w];
        NodeDone(r, true);
        return;
      } else {
        w := w.(step := In);
      }
      BooksSame(cur, w);
      cur := [w];
      finished, ok, r := Again(sqe);
    }

    /** A finished splice to the socket. */
    method CompleteOut(sqe: bool) returns (finished: bool, ok: bool, r: int)
      requires Valid() && cur != [] && cur[0].File? && cur[0].step == Out && ring[0].Finished?
      modifies this`cur, this`ring, this`pumping, this`log, this`h
      ensures Valid()
      ensures !finished ==> cur != [] && log == old(log) && h == old(h) && pumping == old(pumping)
      ensures finished ==>
        && Ended(old(cur[0]), old(log), old(h), old(pumping), r, ok) && (!ok ==> old(ring[0].res) <= 0 || !sqe)
      ensures
        var w, res := old(cur[0]), old(ring[0].res);
        var k := if res > 0 then res else 0;
        var refused, more := res < 0 && res != -EAGAIN, k < w.inPipe || (w.rem > 0 && !w.eof);
        && finished == (refused || !more || !sqe)
        && (finished ==>
              ok == (!refused && !more) && r == if refused then res else if more then -EAGAIN else Int32(w.sent + k))
        && (!finished && k < w.inPipe ==>
              && cur == [w.(inPipe := w.inPipe - k, sent := w.sent + k)] && ring == [Waiting(OutOp(w.inPipe - k))])
        && (!finished && k == w.inPipe ==>
              && cur == [w.(inPipe := 0, sent := w.sent + k, step := In)]
              && ring == [Waiting(InOp(if w.rem < w.cap then w.rem else w.cap))])
    {
      hide Bytes, Rest, Once, AllOwned, Reported, Resetting;
      var w, res := cur[0], ring[0].res;
      OutAck(w, ring[0]);
      ring := [];
      finished, ok, r := true, false, res;
      if res > 0 {
        w := w.(inPipe := w.inPipe - res, sent := w.sent + res);
      }
      if w.inPipe > 0 {
        w := w.(step := Out);
      } else if w.rem > 0 && !w.eof {
        w := w.(step := In);
      }
      RestIgnoresStep(w);
      BooksSame(cur, w);
      cur := [w];
      if res < 0 && res != -EAGAIN {
        NodeDone(res, false);
      } else if w.inPipe > 0 || (w.rem > 0 && !w.eof) {
        finished, ok, r := Again(sqe);
      } else {
        ok, r := true, Int32(w.sent);
        NodeDone(r, true);
      }
    }

    /** The next splice of the current file node, or its end when there is no submission entry. */
    method Again(sqe: bool) returns (finished: bool, ok: bool, r: int)
      requires Held() && ValidNode(cur[0]) && cur[0].File?
      requires (cur[0].step == Out && cur[0].inPipe > 0)
            || (cur[0].step == In && cur[0].inPipe == 0 && cur[0].rem > 0 && !cur[0].eof)
      modifies this`cur, this`ring, this`pumping, this`log, this`h
      ensures Valid()
      ensures !finished ==> cur == old(cur) && log == old(log) && h == old(h) && pumping == old(pumping)
      ensures !finished && cur[0].step == Out ==> ring == [Waiting(OutOp(cur[0].inPipe))]
      ensures !finished && cur[0].step == In ==>
        ring == [Waiting(InOp(if cur[0].rem < cur[0].cap then cur[0].rem else cur[0].cap))]
      ensures finished == !sqe
      ensures finished ==> !ok && r == -EAGAIN && Ended(old(cur[0]), old(log), old(h), old(pumping), r, ok)
    {
      hide Bytes, Books, Rest;
      var w := cur[0];
      finished, ok, r := false, false, -EAGAIN;
      if !sqe {
        finished := true;
        NodeDone(-EAGAIN, false);
      } else if w.step == Out {
        Submit(OutOp(w.inPipe));
      } else {
        Submit(InOp(if w.rem < w.cap then w.rem else w.cap));
      }
    }

    /** The write-node part of uaio_dispatch: the node goes on, or ends with its callback and a pump to follow. */
    method Complete(sqe: bool) returns (finished: bool, ok: bool, r: int)
      requires Valid() && ring != [] && ring[0].Finished?
      modifies this`cur, this`ring, this`pumping, this`log, this`h
      ensures Valid()
      ensures !finished ==> cur != [] && log == old(log) && h == old(h) && pumping == old(pumping)
      ensures finished ==>
        && Ended(old(cur[0]), old(log), old(h), old(pumping), r, ok) && (!ok ==> old(ring[0].res) <= 0 || !sqe)
      ensures old(cur[0].Send?) ==>
        var w, res := old(cur[0]), old(ring[0].res);
        var off := if res > 0 then w.off + res else w.off;
        && finished == !(sqe && (res > 0 || res == -EAGAIN) && off < |w.buf|)
        && (finished ==> ok == (off == |w.buf|) && r == if res < 0 then res else Int32(off))
        && (!finished ==> cur == [w.(off := off)] && ring == [Waiting(SendOp(|w.buf| - off))])
      ensures old(cur[0].File? && cur[0].step == In) ==>
        var w, res := old(cur[0]), old(ring[0].res);
        && finished == (res == 0 || (res < 0 && res != -EAGAIN) || !sqe)
        && (finished ==> ok == (res == 0) && r == if res == 0 then Int32(w.sent) else if res > 0 then -EAGAIN else res)
        && (!finished && res > 0 ==>
              && cur == [w.(rem := w.rem - res, inPipe := w.inPipe + res, step := Out)]
              && ring == [Waiting(OutOp(w.inPipe + res))])
        && (!finished && res < 0 ==> cur == [w] && ring == [Waiting(InOp(if w.rem < w.cap then w.rem else w.cap))])
      ensures old(cur[0].File? && cur[0].step != In) ==>
        var w, res := old(cur[0]), old(ring[0].res);
        var k := if res > 0 then res else 0;
        var refused, more := res < 0 && res != -EAGAIN, k < w.inPipe || (w.rem > 0 && !w.eof);
        && finished == (refused || !more || !sqe)
        && (finished ==>
              ok == (!refused && !more) && r == if refused then res else if more then -EAGAIN else Int32(w.sent + k))
        && (!finished && k < w.inPipe ==>
              && cur == [w.(inPipe := w.inPipe - k, sent := w.sent + k)] && ring == [Waiting(OutOp(w.inPipe - k))])
        && (!finished && k == w.inPipe ==>
              && cur == [w.(inPipe := 0, sent := w.sent + k, step := In)]
              && ring == [Waiting(InOp(if w.rem < w.cap then w.rem else w.cap))])
    {
      hide Bytes, Rest, Pending, Ended, Books;
      if cur[0].Send? {
        finished, ok, r := CompleteSend(sqe);
      } else if cur[0].step == In {
        finished, ok, r := CompleteIn(sqe);
      } else {
        finished, ok, r := CompleteOut(sqe);
      }
    }

    /** dyn_aio_queued: what the live nodes were asked to deliver less what they have delivered. */
    method Queued() returns (n: nat)
      requires Valid()
      ensures n == SumRequested(cur + queue) - SumDelivered(cur + queue)
      ensures n > 0 <==> cur != [] || queue != []
      ensures !h.failed && (forall w :: w in cur + queue && w.File? ==> |w.data| == w.len) ==>
        n == |h.accepted| - |h.wire| + OnWire(ring)
    {
      hide Bytes, Rest, Fresh, Matches, ValidNode, SumRequested, SumDelivered, Pending, OnWire, Books;
      LiveNodes(cur, queue, ring);
      AliveNodes(cur, queue, ring);
      SumConcat(cur, queue);
      var front := Backlog(cur);
      var behind := Backlog(queue);
      n := front + behind;
      if cur == [] && queue == [] { NoneQueued(cur + queue); }
      if !h.failed && (forall w :: w in cur + queue && w.File? ==> |w.data| == w.len) {
        LiveBytes(cur, queue, ring);
      }
    }

    /** The write part of dyn_aio_close: every node that is still alive is to get its one callback. */
    method Close()
      requires Valid()
      modifies this`cur, this`queue, this`ring, this`closing, this`orphans, this`h
      ensures Valid() && cur == [] && queue == [] && ring == []
      ensures orphans == old(orphans) + if old(cur) == [] then [] else [Orphan(old(cur[0]), old(ring[0]))]
      ensures closing == old(closing) + Resets(old(cur)) + Resets(old(queue))
      ensures h == old(h).(failed := old(h.failed) || old(Pending(cur, ring)) != [] || old(Bytes(queue)) != [])
    {
      hide Rest, Bytes, Pending, Fresh, Matches, ValidNode, Once, AllOwned, Reported, Resetting, Resets;
      ghost var cut := Pending(cur, ring) != [] || Bytes(queue) != [];
      NothingLeft();
      OnceClosed(|h.calls|, log, cur, queue, closing);
      AllOwnedNone(h.calls);
      ResettingPush(h.calls, cur, queue, closing);
      ReportedFailed(h, log, cut);
      assert h.wire + [] + [] == h.wire;
      OrphanPush(cur, queue, ring, orphans, h.failed);
      orphans := orphans + if cur == [] then [] else [Orphan(cur[0], ring[0])];
      closing := closing + Resets(cur) + Resets(queue);
      cur, queue, ring, h := [], [], [], h.(failed := h.failed || cut);
    }

    /** One callback of dyn_aio_close. */
    method CloseOne()
      requires Valid() && closing != []
      modifies this`closing, this`log, this`h
      ensures Valid() && closing == old(closing)[1..] && log == old(log) + [old(closing[0])]
      ensures h == Ending(old(h), false, false)
    {
      hide Shape, Once, AllOwned, Reported, Bytes, Pending;
      OnceReset(|h.calls|, log, cur, queue, closing);
      ReportedReset(h, log, closing[0]);
      log, closing, h := log + [closing[0]], closing[1..], Ending(h, false, false);
    }

    /** The kernel does a submission that was left behind; its bytes still go out on the old connection. */
    method OrphanDoes(i: nat, res: int)
      requires Valid() && i < |orphans| && orphans[i].e.Waiting?
      requires Matches(orphans[i].w, Finished(orphans[i].e.op, res))
      modifies this`orphans, this`h
      ensures Valid() && orphans == old(orphans)[i := Orphan(old(orphans[i].w), Finished(old(orphans[i].e.op), res))]
      ensures
        var k := OnWire([orphans[i].e]);
        k <= |Rest(orphans[i].w)| && h == old(h).(wire := old(h.wire) + Rest(orphans[i].w)[..k])
    {
      hide Shape, Once, AllOwned, Reported, Resetting, Bytes, Pending, Rest, Matches, ValidNode;
      var o := orphans[i];
      MatchesRest(o.w, Finished(o.e.op, res));
      ghost var k := OnWire([Finished(o.e.op, res)]);
      assert k == 0 ==> h.wire + Rest(o.w)[..k] == h.wire;
      ReportedWire(h, h.(wire := h.wire + Rest(o.w)[..k]), log);
      orphans, h := orphans[i := Orphan(o.w, Finished(o.e.op, res))], h.(wire := h.wire + Rest(o.w)[..k]);
    }

    /** The completion of a dead node: it is freed without a callback. */
    method OrphanReaped(i: nat)
      requires Valid() && i < |orphans| && orphans[i].e.Finished?
      modifies this`orphans
      ensures Valid() && orphans == old(orphans[..i]) + old(orphans[i + 1..])
    {
      hide Shape, Once, AllOwned, Reported, Resetting, Bytes, Pending, Matches, ValidNode;
      orphans := orphans[..i] + orphans[i + 1..];
    }

    // ----- whole runs -----

    /** The kernel does what it holds, if it may do so with that result. */
    method KernelTurn(res: int)
      requires Valid()
      modifies this`ring, this`h
      ensures Valid() && old(h.wire) <= h.wire && h == old(h).(wire := h.wire)
      ensures cur != [] && old(ring) != [] && Matches(cur[0], Finished(old(ring[0].op), res)) ==>
        ring == [Finished(old(ring[0].op), if old(ring[0].Waiting?) then res else old(ring[0].res))]
    {
      hide Bytes, Rest, Pending, Books, Shape, Matches, ValidNode, LeftBehind;
      ShapeFacts(cur, queue, ring);
      if ring != [] && ring[0].Waiting? {
        KernelMayIs(cur[0], ring[0].op, res);
        if KernelMay(cur[0], ring[0].op, res) {
          Kernel(res);
        }
      }
    }

    /** A finished operation is dispatched, if there is one. */
    method CompletionTurn(sqe: bool)
      requires Valid()
      modifies this`cur, this`ring, this`pumping, this`log, this`h
      ensures Valid() && old(log) <= log && (old(h.failed) ==> h.failed)
      ensures h == old(h).(failed := h.failed, ends := h.ends)
      ensures old(ring) != [] && old(ring[0].Finished?) ==> ring == [] || ring[0].Waiting?
      ensures old(ring) == [] || old(ring[0].Waiting?) ==> unchanged(this)
    {
      hide Bytes, Rest, Pending, Books, Shape, Matches, ValidNode, LeftBehind;
      ShapeFacts(cur, queue, ring);
      if ring != [] && ring[0].Finished? {
        var finished, ok, r := Complete(sqe);
        ShapeFacts(cur, queue, ring);
      }
    }

    /** The kernel does what a close left behind, if it may do so with that result. */
    method LateTurn(i: nat, res: int)
      requires Valid()
      modifies this`orphans, this`h
      ensures Valid() && old(h.wire) <= h.wire && h == old(h).(wire := h.wire) && |orphans| == |old(orphans)|
      ensures
        && i < |old(orphans)| && old(orphans[i].e.Waiting?)
        && Matches(old(orphans[i].w), Finished(old(orphans[i].e.op), res)) ==>
          orphans[i].e == Finished(old(orphans[i].e.op), res)
    {
      hide Bytes, Rest, Pending, Books, Shape, Matches, ValidNode, LeftBehind;
      OrphanFacts(orphans, h.failed);
      if i < |orphans| && orphans[i].e.Waiting? {
        KernelMayIs(orphans[i].w, orphans[i].e.op, res);
        if KernelMay(orphans[i].w, orphans[i].e.op, res) {
          OrphanDoes(i, res);
        }
      }
    }

    /** One thing that can happen: a call, the kernel, a completion, a turn of a pump, or a callback of a close. */
    method Happen(e: Event)
      requires Valid()
      modifies this
      ensures Valid() && (old(h.failed) ==> h.failed) && old(h.wire) <= h.wire && old(h.accepted) <= h.accepted
      ensures old(log) <= log
      // whatever can happen does
      ensures e.CallSend? ==>
        if e.buf == [] || old(cur) != [] || old(queue) != [] then |h.calls| == |old(h.calls)| + 1
        else h.wire == old(h.wire) + e.buf[..Position(0, |e.buf|, e.answers, Passed(e.answers))]
      ensures e.CallFile? && |e.data| <= e.len <= 0xFFFF_FFFF && e.cap > 0 && NoFile(old(cur)) && NoFile(old(queue)) ==>
        |h.calls| == |old(h.calls)| + 1
      ensures
        && e.KernelDoes? && old(cur) != [] && old(ring) != []
        && Matches(old(cur[0]), Finished(old(ring[0].op), e.res)) ==>
          ring == [Finished(old(ring[0].op), if old(ring[0].Waiting?) then e.res else old(ring[0].res))]
      ensures e.Completion? && old(ring) != [] && old(ring[0].Finished?) ==> ring == [] || ring[0].Waiting?
      ensures e.Pumps? && old(pumping) > 0 ==> pumping == old(pumping) - 1 || |log| == |old(log)| + 1
      ensures e.Closes? ==> cur == [] && queue == [] && |closing| == |old(closing)| + |old(cur)| + |old(queue)|
      ensures e.CloseNext? && old(closing) != [] ==> log == old(log) + [old(closing[0])]
      ensures
        && e.LateKernel? && e.i < |old(orphans)| && old(orphans[e.i].e.Waiting?)
        && Matches(old(orphans[e.i].w), Finished(old(orphans[e.i].e.op), e.res)) ==>
          |orphans| == |old(orphans)| && orphans[e.i].e == Finished(old(orphans[e.i].e.op), e.res)
      ensures e.LateCompletion? && e.i < |old(orphans)| && old(orphans[e.i].e.Finished?) ==>
        orphans == old(orphans[..e.i]) + old(orphans[e.i + 1..])
    {
      hide Bytes, Rest, Fresh, Pending, Books, Position, Passed, RefusedAt, Shape, Resets;
      hide Matches, ValidNode, LeftBehind;
      match e {
        case CallSend(buf, answers) =>
          var ok := SendRaw(buf, answers);
        case CallFile(data, len, cap) =>
          if |data| <= len && cap > 0 {
            var ok := SendFile(data, len, cap);
          }
        case KernelDoes(res) => KernelTurn(res);
        case Completion(sqe) => CompletionTurn(sqe);
        case Pumps(sqe) =>
          if pumping > 0 {
            PumpTurn(sqe);
          }
        case Closes =>
          Close();
        case CloseNext =>
          if closing != [] {
            CloseOne();
          }
        case LateKernel(i, res) => LateTurn(i, res);
        case LateCompletion(i) =>
          if i < |orphans| && orphans[i].e.Finished? {
            OrphanReaped(i);
          }
      }
    }

    /**
      * Every run, whatever is called, however the kernel cuts the work and whenever callbacks call back in: until
      * a write fails the wire holds a prefix of what was accepted, in call order, and at most one submission is out.
      * Every accepted call has had one callback, waits for the one of a close or is alive in one node; a callback
      * after a delivery reports what its call is due.
      */
    method Run(events: seq<Event>)
      requires Valid()
      modifies this
      ensures Valid() && |ring| <= 1 && old(h.wire) <= h.wire && (!h.failed ==> h.wire <= h.accepted)
      ensures queue != [] ==> |ring| == 1 || pumping > 0
      ensures Once(|h.calls|, log, cur, queue, closing) && Reported(h, log)
    {
      hide Bytes, Pending, Fresh, Once, AllOwned, Reported, Resetting, Matches, ValidNode;
      var i := 0;
      while i < |events|
        invariant 0 <= i <= |events| && Valid() && old(h.wire) <= h.wire
      {
        Happen(events[i]);
        i := i + 1;
      }
      if !h.failed { Ordered(); }
    }
  }

  /** A send of two bytes of which one goes out during the call; the other is submitted. */
  method HalfSent() returns (w: WriteSide)
    ensures fresh(w) && w.Valid() && !w.h.failed && w.h.wire == [1] && w.queue == [] && w.log == [] && w.h.ends == []
    ensures w.h.calls == [Sending(2, 1, false)] && w.cur == [Send(0, [2], 0)] && w.ring == [Waiting(SendOp(1))]
  {
    hide Shape, Once, AllOwned, Reported, Resetting, Bytes, Pending;
    w := new WriteSide();
    var ok := w.SendRaw([1, 2], [Sent(1), WouldBlock]);
    w.PumpTurn(true);
  }

  /** Its one callback reports only the byte that was submitted. */
  method ShortReport() returns (w: WriteSide)
    ensures w.Valid() && !w.h.failed && w.h.wire == [1, 2] && w.cur == [] && w.queue == []
    ensures w.h.calls == [Sending(2, 1, false)] && w.log == [Callback(0, 1)] && w.h.ends == [true]
  {
    hide Shape, Once, AllOwned, Reported, Resetting, Bytes, Pending;
    w := HalfSent();
    w.Kernel(1);
    var finished, done, r := w.Complete(true);
  }

  datatype Event =
    | CallSend(buf: seq<Byte>, answers: seq<Answer>)
    | CallFile(data: seq<Byte>, len: nat, cap: nat)
    | KernelDoes(res: int)
    | Completion(sqe: bool)
    | Pumps(sqe: bool)
    | Closes
    | CloseNext
    | LateKernel(i: nat, res: int)
    | LateCompletion(i: nat)

  /** A node as its first operation is submitted, and that operation. */
  function Begun(w: Node): (v: Node) {
    if w.File? then w.(step := In) else w
  }

  function FirstOp(w: Node): (op: Op) {
    match w
    case Send(_, buf, off) => SendOp(if off <= |buf| then |buf| - off else 0)
    case File(_, _, _, cap, rem, _, _, _, _) => InOp(if rem < cap then rem else cap)
  }

  /** A callback is made: `cut` says that bytes of its write were left. */
  function Ending(h: History, cut: bool, ok: bool): (h': History) {
    h.(failed := h.failed || cut, ends := h.ends + [ok])
  }

  /** A call is accepted. */
  function Accepting(h: History, c: Call, bytes: seq<Byte>): (h': History) {
    h.(calls := h.calls + [c], accepted := h.accepted + bytes)
  }

  /** A call is accepted and called back at once. */
  function Done(h: History, c: Call, bytes: seq<Byte>): (h': History) {
    Ending(Accepting(h, c, bytes), false, true)
  }

  /** What the kernel may answer to an operation. */
  predicate KernelMay(w: Node, op: Op, res: int) {
    match w
    case Send(_, buf, off) => op.SendOp? && res <= |buf| - off
    case File(_, data, _, _, _, inPipe, sent, _, step) =>
      if step == In then op.InOp? && res <= op.want && sent + res <= |data| && (res == 0 ==> sent == |data|)
      else res <= inPipe
  }

  /** That is all the kernel may do with what was submitted. */
  lemma KernelMayIs(w: Node, op: Op, res: int)
    requires Matches(w, Waiting(op))
    ensures KernelMay(w, op, res) <==> Matches(w, Finished(op, res))
  {}

  /** The int a callback reports is the byte count exactly when the count is below 2^31. */
  lemma Int32Exact(n: nat)
    requires n < 0x1_0000_0000
    ensures Int32(n) == n <==> n < 0x8000_0000
  {}

  /** A file of 2^31 bytes is reported as a negative number. */
  lemma Int32Wraps()
    ensures Int32(0x8000_0000) == -0x8000_0000
  {}

  predicate NoFile(nodes: seq<Node>) {
    forall k :: 0 <= k < |nodes| ==> !nodes[k].File?
  }

  // ----- each call once, and what it reports -----

  lemma NumbersPush(n: nat)
    ensures Numbers(n + 1) == Numbers(n) + [n]
  {}

  /** A call whose callback is made at once. */
  lemma CallDone(h: History, log: Log, cur: seq<Node>, queue: seq<Node>, closing: Log, c: Call,
                 bytes: seq<Byte>, r: int)
    requires Once(|h.calls|, log, cur, queue, closing) && AllOwned(h.calls, cur, queue) && Reported(h, log)
    requires Resetting(|h.calls|, closing) && ValidCall(c) && r == Int32(Due(c))
    ensures
      var log', n := log + [Callback(|h.calls|, r)], |h.calls| + 1;
      && Once(n, log', cur, queue, closing) && AllOwned(h.calls + [c], cur, queue)
      && Reported(Done(h, c, bytes), log') && Resetting(n, closing)
  {
    hide Once, AllOwned, Reported, Resetting, Due;
    OnceNow(|h.calls|, log, cur, queue, closing, r);
    CallAdded(h, log, cur, queue, closing, c, bytes);
    ReportedNow(Accepting(h, c, bytes), log, r);
  }

  /** A call that leaves a node in the queue. */
  lemma CallQueued(h: History, log: Log, cur: seq<Node>, queue: seq<Node>, closing: Log, c: Call,
                   bytes: seq<Byte>, w: Node)
    requires Once(|h.calls|, log, cur, queue, closing) && AllOwned(h.calls, cur, queue) && Reported(h, log)
    requires Resetting(|h.calls|, closing) && ValidCall(c) && w.id == |h.calls| && |Content(w)| == Due(c)
    ensures Once(|h.calls| + 1, log, cur, queue + [w], closing) && AllOwned(h.calls + [c], cur, queue + [w])
    ensures Reported(Accepting(h, c, bytes), log) && Resetting(|h.calls| + 1, closing)
  {
    hide Once, AllOwned, Reported, Resetting, Due, Content;
    OncePush(|h.calls|, log, cur, queue, closing, w);
    CallAdded(h, log, cur, queue, closing, c, bytes);
    OwnedPush(h.calls + [c], cur, queue, w);
  }

  lemma OnceNow(n: nat, log: Log, cur: seq<Node>, queue: seq<Node>, closing: Log, r: int)
    requires Once(n, log, cur, queue, closing)
    ensures Once(n + 1, log + [Callback(n, r)], cur, queue, closing)
  {
    NumbersPush(n);
    assert LogIds(log + [Callback(n, r)]) == LogIds(log) + [n];
  }

  lemma OncePush(n: nat, log: Log, cur: seq<Node>, queue: seq<Node>, closing: Log, w: Node)
    requires Once(n, log, cur, queue, closing) && w.id == n
    ensures Once(n + 1, log, cur, queue + [w], closing)
  {
    NumbersPush(n);
    assert NodeIds(queue + [w]) == NodeIds(queue) + [w.id];
  }

  /** Another call changes nothing for those before it. */
  lemma CallAdded(h: History, log: Log, cur: seq<Node>, queue: seq<Node>, closing: Log, c: Call,
                  bytes: seq<Byte>)
    requires AllOwned(h.calls, cur, queue) && Reported(h, log) && Resetting(|h.calls|, closing) && ValidCall(c)
    ensures AllOwned(h.calls + [c], cur, queue) && Reported(Accepting(h, c, bytes), log)
    ensures Resetting(|h.calls| + 1, closing)
  {
    hide Due, Content, ValidCall;
  }

  lemma OwnedPush(calls: seq<Call>, cur: seq<Node>, queue: seq<Node>, w: Node)
    requires AllOwned(calls, cur, queue) && Owns(calls, w)
    ensures AllOwned(calls, cur, queue + [w])
  {
    hide Owns;
  }

  lemma ReportedNow(h: History, log: Log, r: int)
    requires Reported(h, log) && h.calls != [] && r == Int32(Due(h.calls[|h.calls| - 1]))
    ensures Reported(Ending(h, false, true), log + [Callback(|h.calls| - 1, r)])
  {
    hide Due, ValidCall;
  }

  lemma OnceTake(n: nat, log: Log, queue: seq<Node>, closing: Log, v: Node)
    requires queue != [] && Once(n, log, [], queue, closing) && v.id == queue[0].id
    ensures Once(n, log, [v], queue[1..], closing)
  {
    assert NodeIds([v]) == [v.id] && NodeIds([]) == [];
    assert NodeIds(queue) == [queue[0].id] + NodeIds(queue[1..]);
  }

  lemma OnceDone(n: nat, log: Log, cur: seq<Node>, queue: seq<Node>, closing: Log, r: int)
    requires |cur| == 1 && Once(n, log, cur, queue, closing)
    ensures Once(n, log + [Callback(cur[0].id, r)], [], queue, closing)
  {
    assert NodeIds(cur) == [cur[0].id] && NodeIds([]) == [];
    assert LogIds(log + [Callback(cur[0].id, r)]) == LogIds(log) + [cur[0].id];
  }

  lemma OnceSame(n: nat, log: Log, cur: seq<Node>, v: Node, queue: seq<Node>, closing: Log)
    requires |cur| == 1 && cur[0].id == v.id && Once(n, log, cur, queue, closing)
    ensures Once(n, log, [v], queue, closing)
  {
    assert NodeIds(cur) == NodeIds([v]);
  }

  lemma OnceClosed(n: nat, log: Log, cur: seq<Node>, queue: seq<Node>, closing: Log)
    requires Once(n, log, cur, queue, closing)
    ensures Once(n, log, [], [], closing + Resets(cur) + Resets(queue))
  {
    assert LogIds(closing + Resets(cur) + Resets(queue)) == LogIds(closing) + NodeIds(cur) + NodeIds(queue);
    assert NodeIds([]) == [];
  }

  lemma OnceReset(n: nat, log: Log, cur: seq<Node>, queue: seq<Node>, closing: Log)
    requires closing != [] && Once(n, log, cur, queue, closing)
    ensures Once(n, log + [closing[0]], cur, queue, closing[1..])
  {
    assert LogIds(log + [closing[0]]) == LogIds(log) + [closing[0].id];
    assert LogIds(closing) == [closing[0].id] + LogIds(closing[1..]);
  }

  lemma OwnedDone(calls: seq<Call>, cur: seq<Node>, queue: seq<Node>)
    requires |cur| == 1 && AllOwned(calls, cur, queue)
    ensures AllOwned(calls, [], queue) && Owns(calls, cur[0])
  {}

  lemma OwnedTake(calls: seq<Call>, queue: seq<Node>, v: Node)
    requires queue != [] && AllOwned(calls, [], queue) && v == Begun(queue[0])
    ensures AllOwned(calls, [v], queue[1..])
  {
    assert Owns(calls, queue[0]);
  }

  lemma AllOwnedNone(calls: seq<Call>)
    ensures AllOwned(calls, [], [])
  {}

  lemma ReportedPush(h: History, log: Log, w: Node, r: int, ok: bool, cut: bool)
    requires Reported(h, log) && Owns(h.calls, w) && (if ok then r == Int32(|Content(w)|) else r < 0 || cut)
    ensures Reported(Ending(h, cut, ok), log + [Callback(w.id, r)])
  {
    hide Content, Due;
  }

  lemma ReportedReset(h: History, log: Log, c: Callback<nat>)
    requires Reported(h, log) && c.id < |h.calls| && c.result < 0
    ensures Reported(Ending(h, false, false), log + [c])
  {
    hide Due;
  }

  lemma ReportedWire(h: History, h': History, log: Log)
    requires Reported(h, log) && h'.calls == h.calls && h'.ends == h.ends && h'.failed == h.failed
    ensures Reported(h', log)
  {
    hide Due;
  }

  lemma ReportedFailed(h: History, log: Log, more: bool)
    requires Reported(h, log)
    ensures Reported(h.(failed := h.failed || more), log)
  {
    hide Due;
  }

  lemma ResettingPush(calls: seq<Call>, cur: seq<Node>, queue: seq<Node>, closing: Log)
    requires AllOwned(calls, cur, queue) && Resetting(|calls|, closing)
    ensures Resetting(|calls|, closing + Resets(cur) + Resets(queue))
  {
    hide Content, Due;
    forall i | 0 <= i < |closing + Resets(cur) + Resets(queue)|
      ensures
        var c := (closing + Resets(cur) + Resets(queue))[i];
        c.id < |calls| && c.result == -ECONNRESET
    {
      var k := i - |closing|;
      if 0 <= k < |cur| {
        assert Owns(calls, cur[k]);
      } else if k >= |cur| {
        assert Owns(calls, queue[k - |cur|]);
      }
    }
  }

  // ----- the shape of the state -----

  lemma OrphanPush(cur: seq<Node>, queue: seq<Node>, ring: seq<Entry>, orphans: seq<Orphan>, failed: bool)
    requires Shape(cur, queue, ring) && LeftBehind(orphans, failed)
    ensures
      var more := if cur == [] then [] else [Orphan(cur[0], ring[0])];
      LeftBehind(orphans + more, failed || Pending(cur, ring) != [] || Bytes(queue) != [])
  {
    hide Bytes;
  }

  lemma OrphanFacts(orphans: seq<Orphan>, failed: bool)
    requires LeftBehind(orphans, failed)
    ensures forall i :: 0 <= i < |orphans| ==> ValidNode(orphans[i].w) && Matches(orphans[i].w, orphans[i].e)
  {
    hide Matches, ValidNode;
  }

  lemma ShapeFacts(cur: seq<Node>, queue: seq<Node>, ring: seq<Entry>)
    requires Shape(cur, queue, ring)
    ensures |cur| <= 1 && |ring| == |cur| && (cur != [] ==> ValidNode(cur[0]) && Matches(cur[0], ring[0]))
  {}

  lemma ShapeTake(cur: seq<Node>, queue: seq<Node>, ring: seq<Entry>)
    requires Shape(cur, queue, ring) && cur == [] && queue != []
    ensures ring == [] && Fresh(queue[0]) && AllFresh(queue[1..])
  {
    hide Fresh;
  }

  lemma ShapeEmpty(ring: seq<Entry>)
    requires Shape([], [], ring)
    ensures ring == []
  {}

  lemma ShapePush(cur: seq<Node>, queue: seq<Node>, ring: seq<Entry>, w: Node)
    requires Shape(cur, queue, ring) && Fresh(w)
    ensures Shape(cur, queue + [w], ring)
  {}

  lemma RestBegun(w: Node)
    requires Fresh(w)
    ensures Rest(Begun(w)) == Rest(w) && ValidNode(Begun(w)) && Matches(Begun(w), Waiting(FirstOp(w)))
  {}

  lemma NoRest(wire: seq<Byte>, rest: seq<Byte>, tail: seq<Byte>)
    ensures Pending([], []) == [] && (rest == [] ==> wire + [] + tail == wire + rest + tail)
  {}

  lemma Regroup(a: seq<Byte>, b: seq<Byte>, c: seq<Byte>)
    ensures a + (b + c) == a + b + c
  {}

  /** The callbacks a close makes for a list of nodes. */
  function Resets(nodes: seq<Node>): (c: Log)
    ensures |c| == |nodes|
  {
    seq(|nodes|, i requires 0 <= i < |nodes| => Callback(nodes[i].id, -ECONNRESET))
  }

  lemma NothingYet()
    ensures Shape([], [], []) && Once(0, [], [], [], []) && AllOwned([], [], []) && Resetting(0, [])
    ensures LeftBehind([], false)
    ensures Reported(History([], [], [], [], false), []) && [] + Pending([], []) + Bytes([]) == []
  {
    assert LogIds<nat>([]) == [] && NodeIds([]) == [] && Numbers(0) == [];
  }

  lemma NothingLeft()
    ensures Pending([], []) == [] && Bytes([]) == []
  {}

  // ----- sums over nodes -----

  /** The sum over one list of nodes. */
  method Backlog(nodes: seq<Node>) returns (n: nat)
    requires forall i :: 0 <= i < |nodes| ==> ValidNode(nodes[i])
    ensures n == SumRequested(nodes) - SumDelivered(nodes)
    ensures (forall i :: 0 <= i < |nodes| ==> NodeQueued(nodes[i]) > 0) ==> n >= |nodes|
  {
    hide ValidNode, SumRequested, SumDelivered, NodeQueued;
    n := 0;
    SumNone();
    var i := 0;
    assert nodes[..0] == [];
    while i < |nodes|
      invariant 0 <= i <= |nodes| && n == SumRequested(nodes[..i]) - SumDelivered(nodes[..i])
      invariant (forall k :: 0 <= k < |nodes| ==> NodeQueued(nodes[k]) > 0) ==> n >= i
    {
      SumStep(nodes, i);
      n := n + NodeQueued(nodes[i]);
      i := i + 1;
    }
    assert nodes[..|nodes|] == nodes;
  }

  lemma {:induction false} SumConcat(a: seq<Node>, b: seq<Node>)
    ensures SumRequested(a + b) == SumRequested(a) + SumRequested(b)
    ensures SumDelivered(a + b) == SumDelivered(a) + SumDelivered(b)
    decreases |b|
  {
    if b == [] {
      assert a + b == a;
    } else {
      var k := |b| - 1;
      assert (a + b)[..|a + b| - 1] == a + b[..k];
      SumConcat(a, b[..k]);
    }
  }

  /** A node's share of dyn_aio_queued. */
  function NodeQueued(w: Node): (n: int) {
    match w case Send(_, buf, off) => |buf| - off case File(_, _, _, _, rem, inPipe, _, _, _) => rem + inPipe
  }

  ghost function SumRequested(nodes: seq<Node>): (n: nat) {
    if nodes == [] then 0 else SumRequested(nodes[..|nodes| - 1]) + Requested(nodes[|nodes| - 1])
  }

  ghost function SumDelivered(nodes: seq<Node>): (n: nat) {
    if nodes == [] then 0 else SumDelivered(nodes[..|nodes| - 1]) + Delivered(nodes[|nodes| - 1])
  }

  ghost function SumRest(nodes: seq<Node>): (n: nat) {
    if nodes == [] then 0 else SumRest(nodes[..|nodes| - 1]) + |Rest(nodes[|nodes| - 1])|
  }

  lemma SumNone()
    ensures SumRequested([]) == 0 && SumDelivered([]) == 0
  {}

  lemma NoneQueued(nodes: seq<Node>)
    requires nodes == []
    ensures SumRequested(nodes) == 0 && SumDelivered(nodes) == 0
  {}

  lemma FreshIsValid(w: Node)
    requires Fresh(w)
    ensures ValidNode(w)
  {}

  lemma LiveNodes(cur: seq<Node>, queue: seq<Node>, ring: seq<Entry>)
    requires |cur| <= 1 && (cur != [] ==> ValidNode(cur[0])) && (forall i :: 0 <= i < |queue| ==> Fresh(queue[i]))
    ensures forall i :: 0 <= i < |cur + queue| ==> ValidNode((cur + queue)[i])
    ensures (forall i :: 0 <= i < |cur| ==> ValidNode(cur[i])) && (forall i :: 0 <= i < |queue| ==> ValidNode(queue[i]))
  {
    hide Fresh, ValidNode;
    forall i | 0 <= i < |cur + queue| ensures ValidNode((cur + queue)[i]) {
      if i >= |cur| { FreshIsValid(queue[i - |cur|]); }
    }
    forall i | 0 <= i < |queue| ensures ValidNode(queue[i]) { FreshIsValid(queue[i]); }
  }

  /** Every live node has bytes to deliver or to acknowledge. */
  lemma AliveNodes(cur: seq<Node>, queue: seq<Node>, ring: seq<Entry>)
    requires Shape(cur, queue, ring)
    ensures forall i :: 0 <= i < |cur| ==> NodeQueued(cur[i]) > 0
    ensures forall i :: 0 <= i < |queue| ==> NodeQueued(queue[i]) > 0
  {}

  lemma SumStep(live: seq<Node>, i: nat)
    requires i < |live| && ValidNode(live[i])
    ensures SumRequested(live[..i + 1]) == SumRequested(live[..i]) + Requested(live[i])
    ensures SumDelivered(live[..i + 1]) == SumDelivered(live[..i]) + Delivered(live[i])
    ensures NodeQueued(live[i]) == Requested(live[i]) - Delivered(live[i]) >= 0
    ensures SumRest(live[..i + 1]) == SumRest(live[..i]) + |Rest(live[i])|
  {
    assert live[..i + 1][..i] == live[..i];
  }

  lemma {:induction false} SumRestBytes(nodes: seq<Node>, i: nat)
    requires i <= |nodes|
    ensures |Bytes(nodes[..i])| == SumRest(nodes[..i])
    decreases i
  {
    hide Rest;
    if i > 0 {
      SumRestBytes(nodes, i - 1);
      assert nodes[..i][..i - 1] == nodes[..i - 1];
      assert nodes[..i] == nodes[..i - 1] + [nodes[i - 1]];
      BytesPush(nodes[..i - 1], nodes[i - 1]);
    }
  }

  lemma {:induction false} RestIsRequest(live: seq<Node>, i: nat)
    requires i <= |live|
    requires (forall k :: 0 <= k < |live| ==> ValidNode(live[k]) && (live[k].File? ==> |live[k].data| == live[k].len))
    ensures SumRest(live[..i]) == SumRequested(live[..i]) - SumDelivered(live[..i])
    decreases i
  {
    if i > 0 {
      RestIsRequest(live, i - 1);
      SumStep(live, i - 1);
    }
  }

  /** With whole files the backlog is what is accepted and not on the wire, less what a finished operation has sent. */
  lemma LiveBytes(cur: seq<Node>, queue: seq<Node>, ring: seq<Entry>)
    requires |cur| <= 1 && |ring| == |cur| && (cur != [] ==> ValidNode(cur[0]) && Matches(cur[0], ring[0]))
    requires forall i :: 0 <= i < |queue| ==> Fresh(queue[i])
    requires forall w :: w in cur + queue && w.File? ==> |w.data| == w.len
    ensures SumRequested(cur + queue) - SumDelivered(cur + queue)
         == |Pending(cur, ring)| + OnWire(ring) + |Bytes(queue)|
  {
    hide Bytes, Rest, Fresh, SumRequested, SumDelivered, SumRest, ValidNode, Matches;
    var live := cur + queue;
    LiveNodes(cur, queue, ring);
    forall k | 0 <= k < |live| ensures live[k].File? ==> |live[k].data| == live[k].len { assert live[k] in live; }
    RestIsRequest(live, |live|);
    SumRestBytes(live, |live|);
    assert live[..|live|] == live;
    if cur == [] {
      assert live == queue;
    } else {
      MatchesRest(cur[0], ring[0]);
      BytesFirst(cur[0], queue);
      assert live == [cur[0]] + queue;
    }
  }

  lemma BytesFirst(w: Node, queue: seq<Node>)
    ensures Bytes([w] + queue) == Rest(w) + Bytes(queue)
  {
    assert ([w] + queue)[1..] == queue;
  }

  /** Acknowledging what left the pipe. */
  lemma OutAck(w: Node, e: Entry)
    requires ValidNode(w) && w.File? && w.step == Out && e.Finished? && Matches(w, e)
    ensures
      var k: nat := if e.res > 0 then e.res else 0;
      k <= w.inPipe && k <= |Rest(w)| &&
      var v := w.(inPipe := w.inPipe - k, sent := w.sent + k);
      ValidNode(v) && Rest(v) == Rest(w)[k..] && Rest(w)[0..] == Rest(w)
  {}

  lemma RestIgnoresStep(w: Node)
    requires ValidNode(w) && w.File?
    ensures Rest(w.(step := In)) == Rest(w) == Rest(w.(step := Out))
    ensures Rest(w) == [] <==> w.sent == |w.data|
  {}

  /** All a node was to deliver: its buffer, or what the file holds of the requested range. */
  ghost function Content(w: Node): (b: seq<Byte>) {
    match w case Send(_, buf, _) => buf case File(_, data, _, _, _, _, _, _, _) => data
  }

  /** An operation puts no more on the wire than its node has left. */
  lemma MatchesRest(w: Node, e: Entry)
    requires ValidNode(w) && Matches(w, e)
    ensures e.Finished? && !e.op.InOp? ==> e.res <= |Rest(w)|
  {}

  lemma MoveToWire(wire: seq<Byte>, rest: seq<Byte>, k: nat, tail: seq<Byte>)
    requires k <= |rest|
    ensures (wire + rest[..k]) + rest[k..] + tail == wire + rest + tail
  {
    assert rest[..k] + rest[k..] == rest;
    assert (wire + rest[..k]) + rest[k..] == wire + (rest[..k] + rest[k..]);
  }

  lemma IsPrefix(wire: seq<Byte>, pending: seq<Byte>, tail: seq<Byte>, total: seq<Byte>)
    requires wire + pending + tail == total
    ensures wire <= total
  {
    assert wire + pending + tail == wire + (pending + tail);
  }

  /** Attempts add up. */
  lemma MoreSent(wire: seq<Byte>, buf: seq<Byte>, off: nat, k: nat)
    requires off + k <= |buf|
    ensures (wire + buf[..off]) + buf[off..off + k] == wire + buf[..off + k]
  {
    assert buf[..off] + buf[off..off + k] == buf[..off + k];
  }

  lemma SentAll(wire: seq<Byte>, buf: seq<Byte>)
    ensures wire + buf[..|buf|] == wire + buf
  {}

  lemma SentSome(wire: seq<Byte>, buf: seq<Byte>, off: nat)
    requires off < |buf|
    ensures buf[off..][0..] == buf[off..] && wire + buf[..off] + [] + [] + buf[off..] == wire + [] + [] + buf
  {
    assert buf[..off] + buf[off..] == buf;
    assert wire + buf[..off] + buf[off..] == wire + (buf[..off] + buf[off..]);
  }

  /** The first queued node's bytes come first. */
  lemma TakeFirst(wire: seq<Byte>, queue: seq<Node>)
    requires queue != []
    ensures wire + [] + Bytes(queue) == wire + Rest(queue[0]) + Bytes(queue[1..])
  {
    assert wire + (Rest(queue[0]) + Bytes(queue[1..])) == (wire + Rest(queue[0])) + Bytes(queue[1..]);
    assert wire + [] == wire;
  }
}
