/**
  * The write side of one descriptor in the readiness reactor src/dyna-aio.c: aio_send_raw, dyn_aio_sendfile,
  * aio_wq_promote, aio_wq_flush, aio_file_done, the write and file parts of aio_dispatch, dyn_aio_queued and
  * dyn_aio_close.
  *
  * The socket answers each attempt as it likes. A callback may call back in, so each turn of the dispatch loop and
  * each callback of a flush is a step of its own, and steps come in any order.
  */
module Reactor {
  import opened Wire
  import opened Attempts

  const ECONNRESET: int := 104
  const INT_MAX: nat := 0x7FFF_FFFF

  /** A send call: the context it was given, and the bytes it asked to send. */
  datatype Call = Call(context: nat, asked: nat)

  /** The callbacks of sends, oldest first. */
  type Log = seq<Callback<Call>>

  /** w_buf, w_off, w_len and w_full: the bytes still to send of the buffer in front, and the length first asked for. */
  datatype Active = Active(id: Call, buf: seq<Byte>, off: nat, full: nat)

  /** A queued buffer; `afterFile` marks one that was queued while a file was pending. */
  datatype Node = Node(id: Call, buf: seq<Byte>, afterFile: bool)

  /** The pending file: what it holds in the requested range of `len` bytes, and how much was sent. */
  datatype FileJob = FileJob(id: nat, data: seq<Byte>, len: nat, sent: nat)

  // ----- what is pending -----

  function Bytes(queue: seq<Node>): (b: seq<Byte>) {
    if queue == [] then [] else queue[0].buf + Bytes(queue[1..])
  }

  function ActiveRest(active: seq<Active>): (b: seq<Byte>) {
    if active == [] || active[0].off > |active[0].buf| then [] else active[0].buf[active[0].off..]
  }

  function FileRest(file: seq<FileJob>): (b: seq<Byte>) {
    if file == [] || file[0].sent > |file[0].data| then [] else file[0].data[file[0].sent..]
  }

  /** The bytes a pending file lacks of its requested range. */
  function Short(file: seq<FileJob>): (n: int) {
    if file == [] then 0 else file[0].len - |file[0].data|
  }

  /** The number of buffers before the first marked one. */
  function Leading(queue: seq<Node>): (k: nat)
    ensures k <= |queue| && (k < |queue| ==> queue[k].afterFile)
    ensures forall i :: 0 <= i < k ==> !queue[i].afterFile
  {
    if queue == [] || queue[0].afterFile then 0
    else
      var k := Leading(queue[1..]);
      assert forall i :: 1 <= i < |queue| ==> queue[i] == queue[1..][i - 1];
      k + 1
  }

  /** The queued buffers that go out before the pending file. */
  function Ahead(queue: seq<Node>, file: seq<FileJob>): (k: nat)
    ensures k <= |queue|
  {
    if file == [] then |queue| else Leading(queue)
  }

  /** Everything pending, in the order it goes out: the file before the first marked buffer. */
  function Pending(active: seq<Active>, queue: seq<Node>, file: seq<FileJob>): (b: seq<Byte>) {
    var k := Ahead(queue, file);
    ActiveRest(active) + Bytes(queue[..k]) + FileRest(file) + Bytes(queue[k..])
  }

  // ----- callbacks -----

  function NodeIds(queue: seq<Node>): (ids: seq<Call>)
    ensures |ids| == |queue|
  {
    seq(|queue|, i requires 0 <= i < |queue| => queue[i].id)
  }

  function ActiveIds(active: seq<Active>): (ids: seq<Call>)
    ensures |ids| == |active|
  {
    seq(|active|, i requires 0 <= i < |active| => active[i].id)
  }

  function FileIds(file: seq<FileJob>): (ids: seq<nat>) {
    if file == [] then [] else [file[0].id]
  }

  /** The callbacks that abort a queue. */
  function Aborted(queue: seq<Node>, result: int): (c: Log)
    ensures |c| == |queue|
  {
    seq(|queue|, i requires 0 <= i < |queue| => Callback(queue[i].id, result))
  }

  /** Every accepted send has had its callback or is still waiting for it, once. */
  ghost predicate Once(calls: seq<Call>, log: Log, active: seq<Active>, queue: seq<Node>,
                       flushing: Log) {
    multiset(calls)
      == multiset(LogIds(log)) + multiset(ActiveIds(active)) + multiset(NodeIds(queue)) + multiset(LogIds(flushing))
  }

  /** A callback of a send reports the bytes it asked for, or an error. */
  ghost predicate Reports(c: Callback<Call>) {
    c.result == c.id.asked || c.result < 0
  }

  /** Every callback made or to be made is right, and so will those of the waiting buffers be. */
  ghost predicate Reported(log: Log, active: seq<Active>, queue: seq<Node>, flushing: Log) {
    && (forall i :: 0 <= i < |log| ==> Reports(log[i]))
    && (forall i :: 0 <= i < |active| ==> active[i].full == active[i].id.asked)
    && (forall i :: 0 <= i < |queue| ==> |queue[i].buf| == queue[i].id.asked)
    && (forall i :: 0 <= i < |flushing| ==> flushing[i].result < 0)
  }

  /** Every accepted file request has had its callback, is pending or is lost, once. */
  ghost predicate OnceFile(calls: seq<nat>, log: seq<Callback<nat>>, pending: seq<nat>, lost: seq<nat>) {
    multiset(calls) == multiset(LogIds(log)) + multiset(pending) + multiset(lost)
  }

  /** How often an id occurs. */
  function Count(ids: seq<nat>, id: nat): (n: nat) {
    multiset(ids)[id]
  }

  /** The same bytes, each as often. */
  ghost predicate Rearranged(a: seq<Byte>, b: seq<Byte>) {
    multiset(a) == multiset(b)
  }

  /** The schedule is a rearrangement of call order, and call order itself until a file overtakes buffers. */
  ghost predicate Plan(scheduled: seq<Byte>, accepted: seq<Byte>, tangled: bool) {
    Rearranged(scheduled, accepted) && (!tangled ==> scheduled == accepted)
  }

  /** The fields fit together. */
  predicate Fits(active: seq<Active>, queue: seq<Node>, file: seq<FileJob>) {
    && |active| <= 1 && |file| <= 1
    && (active != [] ==> active[0].off < |active[0].buf|)
    && (forall i :: 0 <= i < |queue| ==> queue[i].buf != [])
    && (file != [] ==> file[0].sent < file[0].len && file[0].sent <= |file[0].data| <= file[0].len)
  }

  /** Nothing waits behind nothing, and the wire and what is pending make up the schedule. */
  predicate InOrder(active: seq<Active>, queue: seq<Node>, file: seq<FileJob>, wire: seq<Byte>, scheduled: seq<Byte>) {
    && (active == [] ==> queue == [] || (queue[0].afterFile && file != []))
    && wire + Pending(active, queue, file) == scheduled
  }

  /** The queue after the front became empty: its head comes to the front unless it waits for a pending file. */
  predicate MovedUp(queue0: seq<Node>, file: seq<FileJob>, active: seq<Active>, queue: seq<Node>) {
    if queue0 == [] || (queue0[0].afterFile && file != []) then active == [] && queue == queue0
    else active == [Front(queue0[0])] && queue == queue0[1..]
  }

  /** A queued buffer that becomes the active one. */
  function Front(n: Node): (w: Active) {
    Active(n.id, n.buf, 0, |n.buf|)
  }

  /** What has happened so far. */
  datatype History = History(
    calls: seq<Call>,
    fileCalls: seq<nat>,
    lost: seq<nat>,       // the file requests that will never get a callback
    wire: seq<Byte>,
    accepted: seq<Byte>,  // the bytes accepted, in call order
    scheduled: seq<Byte>, // the bytes accepted, in the order they are to go out
    failed: bool,         // a socket error or a close has cut a write short
    tangled: bool,        // a file was started while marked buffers were queued
    leaks: nat            // the sendfile calls of length 0 made while a buffer was active
  )

  class Writer {
    /** The part of dyn_aio.inflight that belongs to other operations. */
    const others: nat
    var active: seq<Active>
    var queue: seq<Node>
    var file: seq<FileJob>
    /** The callbacks a flush has still to make, for nodes it took off the queue. */
    var flushing: Log
    /** A socket error that has been reported while the queue is not flushed yet; 0 for none. */
    var error: int
    var inflight: nat
    var log: Log
    var fileLog: seq<Callback<nat>>
    ghost var h: History

    /** The write share of inflight is one for a buffer and one for a file. */
    ghost predicate Valid()
      reads this
    {
      && Fits(active, queue, file) && inflight == others + |active| + |file| + h.leaks
      && Once(h.calls, log, active, queue, flushing) && OnceFile(h.fileCalls, fileLog, FileIds(file), h.lost)
      && Reported(log, active, queue, flushing)
      && Plan(h.scheduled, h.accepted, h.tangled) && error <= 0 && (error < 0 ==> h.failed)
      && (!h.failed ==> InOrder(active, queue, file, h.wire, h.scheduled))
    }

    constructor (others: nat)
      ensures Valid() && this.others == others && inflight == others && log == [] && fileLog == []
      ensures active == [] && queue == [] && file == [] && flushing == [] && error == 0
      ensures h == History([], [], [], [], [], [], false, false, 0)
    {
      this.others := others;
      active, queue, file, flushing, error, inflight, log, fileLog := [], [], [], [], 0, others, [], [];
      h := History([], [], [], [], [], [], false, false, 0);
      new;
      NothingYet();
    }

    /** Until a socket error or a close the wire holds a prefix of the schedule, whatever is called. */
    lemma Ordered()
      requires Valid() && !h.failed
      ensures h.wire <= h.scheduled && Rearranged(h.scheduled, h.accepted) && (!h.tangled ==> h.wire <= h.accepted)
    {}

    /** With nothing left waiting every accepted send has had exactly one callback. */
    lemma AllCalledBack()
      requires Valid() && active == [] && queue == [] && flushing == []
      ensures multiset(LogIds(log)) == multiset(h.calls)
    {
      assert ActiveIds(active) == [] && NodeIds(queue) == [] && LogIds(flushing) == [];
    }

    /** A file request has had all its callbacks exactly when it is neither pending nor lost. */
    lemma FileCalledBack(id: nat)
      requires Valid()
      ensures Count(LogIds(fileLog), id) == Count(h.fileCalls, id) <==> id !in FileIds(file) && id !in h.lost
      ensures Count(LogIds(fileLog), id) <= Count(h.fileCalls, id)
    {
      hide Fits, Once, Reported, InOrder, Plan, OnceFile;
      FileCount(h.fileCalls, fileLog, FileIds(file), h.lost, id);
    }

    // ----- promotion -----

    /** aio_wq_promote, called with no active buffer: the queue head comes to the front unless it waits for the file. */
    method Promote() returns (promoted: bool)
      requires active == []
      modifies this`active, this`queue
      ensures promoted == (old(queue) != [] && !(old(queue)[0].afterFile && file != []))
      ensures MovedUp(old(queue), file, active, queue)
    {
      if queue == [] || (queue[0].afterFile && file != []) {
        return false;
      }
      active, queue := [Active(queue[0].id, queue[0].buf, 0, |queue[0].buf|)], queue[1..];
      promoted := true;
    }

    /** Promotion when the front is empty brings everything back in order. */
    method MoveUp() returns (promoted: bool)
      requires active == [] && Fits([], queue, file) && Once(h.calls, log, [], queue, flushing)
      requires Reported(log, [], queue, flushing)
      requires !h.failed ==> h.wire + Pending([], queue, file) == h.scheduled
      modifies this`active, this`queue
      ensures Fits(active, queue, file) && Once(h.calls, log, active, queue, flushing)
      ensures Reported(log, active, queue, flushing)
      ensures !h.failed ==> InOrder(active, queue, file, h.wire, h.scheduled)
      ensures |active| == (if promoted then 1 else 0) && MovedUp(old(queue), file, active, queue)
    {
      hide Fits, Once, Reported, Pending;
      ghost var q := queue;
      promoted := Promote();
      if promoted {
        OncePromote(h.calls, log, q, flushing);
        ReportedTake(log, q, flushing);
        FitsPromote(q, file);
        PendingPromote(q, file);
      }
    }

    /** The active buffer is done: the next one comes to the front, or a write less is in flight; then the callback. */
    method Finish(id: Call, full: nat)
      requires active == [] && Fits([], queue, file) && Once(h.calls, log, [Active(id, [], 0, full)], queue, flushing)
      requires Reported(log, [Active(id, [], 0, full)], queue, flushing)
      requires inflight == others + 1 + |file| + h.leaks && error <= 0 && (error < 0 ==> h.failed)
      requires OnceFile(h.fileCalls, fileLog, FileIds(file), h.lost) && Plan(h.scheduled, h.accepted, h.tangled)
      requires !h.failed ==> h.wire + Pending([], queue, file) == h.scheduled
      modifies this`log, this`active, this`queue, this`inflight
      ensures Valid() && log == old(log) + [Callback(id, full)] && MovedUp(old(queue), file, active, queue)
    {
      hide Fits, InOrder, Once, Reported, OnceFile, Plan, MovedUp, Pending;
      OnceFinish(h.calls, log, id, full, queue, flushing, full);
      ReportedFinish(log, Active(id, [], 0, full), queue, flushing, full);
      log := log + [Callback(id, full)];
      var promoted := MoveUp();
      if !promoted {
        inflight := inflight - 1;
      }
    }

    // ----- dispatch -----

    /** One turn of the write loop of aio_dispatch. */
    method WriteTurn(answer: Answer)
      requires Valid() && active != []
      modifies this`active, this`queue, this`inflight, this`log, this`error, this`h
      ensures Valid()
      ensures
        var w := old(active[0]);
        match answer
        case Sent(n) =>
          var k := Taken(n, |w.buf| - w.off);
          && h == old(h).(wire := old(h.wire) + w.buf[w.off..w.off + k]) && error == old(error)
          && if w.off + k < |w.buf| then
               log == old(log) && active == [w.(off := w.off + k)] && queue == old(queue)
             else
               log == old(log) + [Callback(w.id, w.full)] && MovedUp(old(queue), file, active, queue)
        case Failure(errno) =>
          && h == old(h).(failed := true) && error == -(errno as int)
          && log == old(log) + [Callback(w.id, error)] && active == [] && queue == old(queue)
        case _ => unchanged(this)
    {
      hide Fits, InOrder, Once, Reported, OnceFile, Plan, MovedUp;
      FitsFacts(active, queue, file);
      match answer {
        case Sent(n) =>
          var k := Taken(n, |active[0].buf| - active[0].off);
          SendSome(k);
        case Interrupted =>
        case WouldBlock =>
        case Failure(errno) =>
          DropFront(-(errno as int));
          error := -(errno as int);
      }
    }

    /** The socket takes some of the active buffer, or all that is left of it. */
    method SendSome(k: nat)
      requires Valid() && active != [] && active[0].off + k <= |active[0].buf|
      modifies this`active, this`queue, this`inflight, this`log, this`h
      ensures Valid()
      ensures
        var w := old(active[0]);
        && h == old(h).(wire := old(h.wire) + w.buf[w.off..w.off + k])
        && if w.off + k < |w.buf| then
             log == old(log) && active == [w.(off := w.off + k)] && queue == old(queue)
           else
             log == old(log) + [Callback(w.id, w.full)] && MovedUp(old(queue), file, active, queue)
    {
      hide Fits, InOrder, Once, Reported, OnceFile, Plan, MovedUp, Pending;
      FitsFacts(active, queue, file);
      var w := active[0];
      assert active == [w];
      FitsSend(w, k, queue, file);
      SendBytes(h.wire, w, k, queue, file, h.scheduled);
      h := h.(wire := h.wire + w.buf[w.off..w.off + k]);
      if w.off + k < |w.buf| {
        SameIds(w, k, h.calls, log, queue, flushing);
        ReportedSame(log, w, w.(off := w.off + k), queue, flushing);
        active := [w.(off := w.off + k)];
      } else {
        active := [];
        FrontIds(h.calls, log, w, queue, flushing);
        ReportedSame(log, w, Active(w.id, [], 0, w.full), queue, flushing);
        Finish(w.id, w.full);
      }
    }

    /** The active buffer is given up with an error: one write less in flight, and its callback. */
    method DropFront(result: int)
      requires Valid() && active != [] && result < 0
      modifies this`active, this`inflight, this`log, this`h
      ensures Valid() && active == [] && h == old(h).(failed := true)
      ensures log == old(log) + [Callback(old(active[0].id), result)]
    {
      hide Fits, InOrder, Once, Reported, OnceFile, Plan;
      FitsFacts(active, queue, file);
      var w := active[0];
      assert active == [w];
      FitsSend(w, |w.buf| - w.off, queue, file);
      FrontIds(h.calls, log, w, queue, flushing);
      OnceFinish(h.calls, log, w.id, w.full, queue, flushing, result);
      ReportedFinish(log, w, queue, flushing, result);
      h := h.(failed := true);
      inflight, log, active := inflight - 1, log + [Callback(w.id, result)], [];
    }

    /** The first part of aio_wq_flush after an error: the queue is taken off. */
    method Flush()
      requires Valid() && error < 0
      modifies this`queue, this`flushing, this`error
      ensures Valid() && queue == [] && error == 0
      ensures old(flushing) <= flushing && |flushing| == |old(flushing)| + |old(queue)|
      ensures forall i :: 0 <= i < |old(queue)| ==>
        flushing[|old(flushing)| + i] == Callback(old(queue)[i].id, old(error))
    {
      hide Fits, InOrder, Once, Reported, OnceFile, Plan;
      FitsEmpty(active, queue, file);
      OnceFlush(h.calls, log, active, queue, flushing, error);
      ReportedFlush(log, active, queue, flushing, error);
      flushing := flushing + Aborted(queue, error);
      queue, error := [], 0;
    }

    /** One callback of aio_wq_flush. */
    method FlushOne()
      requires Valid() && flushing != []
      modifies this`flushing, this`log
      ensures Valid() && log == old(log) + [old(flushing[0])] && flushing == old(flushing)[1..]
    {
      hide Fits, InOrder, Once, Reported, OnceFile, Plan;
      OnceFlushed(h.calls, log, active, queue, flushing);
      ReportedFlushed(log, active, queue, flushing);
      log, flushing := log + [flushing[0]], flushing[1..];
    }

    /** aio_file_done: the file is gone, the queue moves up, then the callback. */
    method FileDone(id: nat, result: int)
      requires active == [] && inflight == others + 1 + h.leaks && error <= 0 && (error < 0 ==> h.failed)
      requires Fits([], queue, []) && Once(h.calls, log, [], queue, flushing) && Reported(log, [], queue, flushing)
      requires OnceFile(h.fileCalls, fileLog, [id], h.lost) && Plan(h.scheduled, h.accepted, h.tangled)
      requires !h.failed ==> h.wire + Pending([], queue, []) == h.scheduled
      modifies this`file, this`inflight, this`fileLog, this`active, this`queue
      ensures Valid() && file == [] && MovedUp(old(queue), [], active, queue)
      ensures fileLog == old(fileLog) + [Callback(id, result)]
    {
      hide Fits, InOrder, Once, Reported, OnceFile, Plan, MovedUp, Pending;
      OnceFileDone(h.fileCalls, fileLog, id, h.lost, result);
      fileLog, file, inflight := fileLog + [Callback(id, result)], [], inflight - 1;
      var promoted := MoveUp();
      if promoted {
        inflight := inflight + 1;
      }
    }

    /** aio_sendfile_step: attempts until the socket blocks, fails, or all is sent; a file that ends early fails. */
    method FileStep(answers: seq<Answer>) returns (result: int)
      requires |file| == 1 && file[0].sent <= |file[0].data| <= file[0].len
      modifies this`file, this`h
      ensures
        var f := old(file[0]);
        var r := Reach(f.sent, |f.data|, answers);
        && file == [f.(sent := r)] && h == old(h).(wire := old(h.wire) + f.data[f.sent..r])
        && result == Stop(f.sent, |f.data|, f.len, answers) && Outcome(f.sent, |f.data|, f.len, answers, r, result)
    {
      hide Reach, Stop, Outcome;
      var f := file[0];
      LoopOutcome(f.sent, |f.data|, f.len, answers);
      var i, sent := 0, f.sent;
      assert answers[0..] == answers && h.wire == h.wire + f.data[f.sent..f.sent];
      while i < |answers| && sent < f.len
        invariant 0 <= i <= |answers| && f.sent <= sent <= |f.data| && file == [f.(sent := sent)]
        invariant h == old(h).(wire := old(h.wire) + f.data[f.sent..sent])
        invariant Reach(sent, |f.data|, answers[i..]) == Reach(f.sent, |f.data|, answers)
        invariant Stop(sent, |f.data|, f.len, answers[i..]) == Stop(f.sent, |f.data|, f.len, answers)
      {
        RowStep(sent, |f.data|, f.len, answers, i);
        match answers[i] {
          case Sent(n) =>
            if sent == |f.data| {
              return -EIO;
            }
            var k := Taken(n, |f.data| - sent);
            MoreSent(old(h.wire), f.data, f.sent, sent, k);
            h := h.(wire := h.wire + f.data[sent..sent + k]);
            sent := sent + k;
            file := [f.(sent := sent)];
          case Interrupted =>
          case WouldBlock => return 0;
          case Failure(errno) => return -(errno as int);
        }
        i := i + 1;
      }
      RowEnd(sent, |f.data|, f.len, answers[i..]);
      result := 0;
    }

    /** The file part of aio_dispatch, and of dyn_aio_sendfile when nothing is in front of the file. */
    method FileTurn(answers: seq<Answer>)
      requires Valid() && |file| == 1 && active == []
      modifies this`file, this`inflight, this`fileLog, this`active, this`queue, this`h
      ensures Valid()
      ensures
        var f := old(file[0]);
        var r, s := Reach(f.sent, |f.data|, answers), Stop(f.sent, |f.data|, f.len, answers);
        && Outcome(f.sent, |f.data|, f.len, answers, r, s)
        && h == old(h).(wire := old(h.wire) + f.data[f.sent..r], failed := old(h.failed) || s < 0)
        && if s < 0 || r == f.len then
             file == [] && fileLog == old(fileLog) + [Callback(f.id, s)] && MovedUp(old(queue), [], active, queue)
           else
             file == [f.(sent := r)] && fileLog == old(fileLog) && active == [] && queue == old(queue)
    {
      hide Fits, InOrder, Once, Reported, OnceFile, Plan, MovedUp, Reach, Stop, Pending, Outcome;
      FitsFacts(active, queue, file);
      ghost var f := file[0];
      assert file == [f];
      var result := FileStep(answers);
      FitsFile(f, file[0].sent, queue);
      FileMoved(old(h.wire), f, file[0].sent, queue, h.scheduled);
      if result < 0 {
        h := h.(failed := true);
        FileDone(file[0].id, result);
      } else if file[0].sent == file[0].len {
        FileDone(file[0].id, 0);
      }
    }

    // ----- calls -----

    /** The direct attempts of aio_send_raw, with nothing pending. */
    method DirectSends(buf: seq<Byte>, answers: seq<Answer>) returns (ok: bool, off: nat)
      requires buf != []
      modifies this`h
      ensures off == Reach(0, |buf|, answers) && h == old(h).(wire := old(h.wire) + buf[..off])
      ensures ok <==> Stop(0, |buf|, |buf|, answers) == 0
    {
      hide Reach, Stop;
      ok, off := true, 0;
      var i := 0;
      assert h.wire == h.wire + buf[..0] && answers[0..] == answers;
      while i < |answers|
        invariant 0 <= i <= |answers| && off < |buf| && ok && h == old(h).(wire := old(h.wire) + buf[..off])
        invariant Reach(off, |buf|, answers[i..]) == Reach(0, |buf|, answers)
        invariant Stop(off, |buf|, |buf|, answers[i..]) == Stop(0, |buf|, |buf|, answers)
      {
        RowStep(off, |buf|, |buf|, answers, i);
        match answers[i] {
          case Sent(n) =>
            var k := Taken(n, |buf| - off);
            MoreSent(old(h.wire), buf, 0, off, k);
            h := h.(wire := h.wire + buf[off..off + k]);
            off := off + k;
            if off >= |buf| {
              RowEnd(off, |buf|, |buf|, answers[i + 1..]);
              return;
            }
          case Interrupted =>
          case WouldBlock => return;
          case Failure(_) =>
            ok := false;
            return;
        }
        i := i + 1;
      }
      RowEnd(off, |buf|, |buf|, answers[i..]);
    }

    /** aio_send_raw. */
    method SendRaw(id: nat, buf: seq<Byte>, answers: seq<Answer>) returns (ok: bool)
      requires Valid()
      modifies this`log, this`active, this`inflight, this`queue, this`h
      ensures Valid()
      // refused, of no bytes, queued behind what is pending, or attempted at once
      ensures |buf| > INT_MAX ==> !ok && unchanged(this)
      ensures buf == [] ==>
        && ok && log == old(log) + [Callback(Call(id, 0), 0)] && h == old(h).(calls := old(h.calls) + [Call(id, 0)])
        && active == old(active) && queue == old(queue)
      ensures 0 < |buf| <= INT_MAX && !(old(active) == [] && old(queue) == [] && old(file) == []) ==>
        && ok && log == old(log) && h == Accepting(old(h), Call(id, |buf|), buf)
        && active == old(active) && queue == old(queue) + [Node(Call(id, |buf|), buf, file != [])]
      ensures 0 < |buf| <= INT_MAX && old(active) == [] && old(queue) == [] && old(file) == [] ==>
        && (!ok <==> exists i: nat :: RefusedAt(|buf|, answers, i)) && queue == []
        && SentAtOnce(old(h), old(log), Call(id, |buf|), buf, Position(0, |buf|, answers, Passed(answers)), ok)
    {
      hide Valid, Position, Passed, RefusedAt, SentAtOnce;
      if |buf| > INT_MAX {
        return false;
      }
      if buf == [] {
        SendNothing(Call(id, 0));
        return true;
      }
      if active != [] || queue != [] || file != [] {
        Enqueue(Node(Call(id, |buf|), buf, file != []));
        return true;
      }
      ok := SendNow(Call(id, |buf|), buf, answers);
    }

    /** A send with nothing pending, of which the socket took `r` bytes: refused, done, or the rest is in front. */
    ghost predicate SentAtOnce(h0: History, log0: Log, id: Call, buf: seq<Byte>, r: nat, ok: bool)
      requires r <= |buf|
      reads this
    {
      var h1 := h0.(wire := h0.wire + buf[..r]);
      if !ok then
        h == h1.(failed := h0.failed || r > 0) && log == log0 && active == []
      else
        && h == Accepting(h1, id, buf)
        && if r == |buf| then log == log0 + [Callback(id, |buf|)] && active == []
           else log == log0 && active == [Active(id, buf[r..], 0, |buf|)]
    }

    /** A send of no bytes. */
    method SendNothing(id: Call)
      requires Valid() && id.asked == 0
      modifies this`log, this`h
      ensures Valid() && log == old(log) + [Callback(id, 0)] && h == old(h).(calls := old(h.calls) + [id])
    {
      hide Fits, InOrder, Once, Reported, OnceFile, Plan;
      OnceNow(h.calls, log, active, queue, flushing, id, 0);
      ReportedNow(log, active, queue, flushing, Callback(id, 0));
      log, h := log + [Callback(id, 0)], h.(calls := h.calls + [id]);
    }

    /** A send with nothing pending: what the socket does not take at once becomes the active buffer. */
    method SendNow(id: Call, buf: seq<Byte>, answers: seq<Answer>) returns (ok: bool)
      requires Valid() && id.asked == |buf| && active == [] && queue == [] && file == [] && buf != []
      modifies this`log, this`active, this`inflight, this`h
      ensures Valid() && (!ok <==> exists i: nat :: RefusedAt(|buf|, answers, i))
      ensures SentAtOnce(old(h), old(log), id, buf, Position(0, |buf|, answers, Passed(answers)), ok)
    {
      hide Fits, InOrder, Once, Reported, OnceFile, Plan, Reach, Stop, Position, Passed, RefusedAt;
      ReachIs(0, |buf|, answers);
      SendRefused(|buf|, answers);
      var off;
      ok, off := DirectSends(buf, answers);
      SplitSend(id, old(h.wire), buf, off, h.scheduled);
      if !ok {
        h := h.(failed := h.failed || off > 0);
        assert off == 0 ==> h.wire == old(h.wire);
        return;
      }
      PlanPush(h.scheduled, h.accepted, h.tangled, buf);
      if off == |buf| {
        OnceNow(h.calls, log, [], [], flushing, id, |buf|);
        ReportedNow(log, [], [], flushing, Callback(id, |buf|));
        log := log + [Callback(id, |buf|)];
      } else {
        OnceFront(h.calls, log, flushing, Active(id, buf[off..], 0, |buf|));
        ReportedFront(log, flushing, Active(id, buf[off..], 0, |buf|));
        active, inflight := [Active(id, buf[off..], 0, |buf|)], inflight + 1;
      }
      h := Accepting(h, id, buf);
    }

    /** A send while something is pending. */
    method Enqueue(n: Node)
      requires Valid() && n.buf != [] && n.id.asked == |n.buf| && (active != [] || queue != [] || file != [])
      requires n.afterFile == (file != [])
      modifies this`queue, this`h
      ensures Valid() && queue == old(queue) + [n] && h == Accepting(old(h), n.id, n.buf)
    {
      hide Fits, InOrder, Once, Reported, OnceFile, Plan;
      FitsQueue(active, queue, file, n);
      AppendBytes(active, queue, file, n, h.wire, h.scheduled);
      OnceQueue(h.calls, log, active, queue, flushing, n);
      ReportedQueue(log, active, queue, flushing, n);
      PlanPush(h.scheduled, h.accepted, h.tangled, n.buf);
      queue, h := queue + [n], Accepting(h, n.id, n.buf);
    }

    /**
      * dyn_aio_sendfile on a file holding `data` in the requested range. A request of length 0 behind an active
      * buffer leaves its share of inflight, and its callback, behind for good. The file goes out before the first
      * marked buffer of the queue.
      */
    method SendFile(id: nat, data: seq<Byte>, len: nat, answers: seq<Answer>) returns (ok: bool)
      requires Valid() && |data| <= len
      modifies this`file, this`inflight, this`fileLog, this`active, this`queue, this`h
      ensures Valid() && ok == (old(file) == [])
      ensures !ok ==> unchanged(this)
      ensures ok && len == 0 ==>
        && file == []
        && if old(active) == [] then
             && h == old(h).(fileCalls := old(h.fileCalls) + [id]) && fileLog == old(fileLog) + [Callback(id, 0)]
             && MovedUp(old(queue), [], active, queue)
           else
             && h == LosingNew(old(h), id) && fileLog == old(fileLog) && active == old(active) && queue == old(queue)
      ensures ok && len > 0 && old(active) != [] ==>
        && file == [FileJob(id, data, len, 0)] && fileLog == old(fileLog)
        && active == old(active) && queue == old(queue)
        && Scheduling(old(h), h, id, data, old(active), old(queue))
      ensures ok && len > 0 && old(active) == [] ==>
        var r, s := Reach(0, |data|, answers), Stop(0, |data|, len, answers);
        && Outcome(0, |data|, len, answers, r, s)
        && h.wire == old(h.wire) + data[..r] && h.failed == (old(h.failed) || s < 0)
        && Scheduling(old(h), h.(wire := old(h.wire), failed := old(h.failed)), id, data, old(active), old(queue))
        && if s < 0 || r == len then
             file == [] && fileLog == old(fileLog) + [Callback(id, s)] && MovedUp(old(queue), [], active, queue)
           else
             file == [FileJob(id, data, len, r)] && fileLog == old(fileLog) && active == [] && queue == old(queue)
    {
      hide Valid, Reach, Stop, Outcome, MovedUp, Scheduling;
      if file != [] {
        return false;
      }
      ok := true;
      if len == 0 {
        SendNoFile(id);
        return;
      }
      StartFile(id, data, len);
      if active == [] {
        ghost var h1 := h;
        SchedulingKeeps(old(h), h1, id, data, active, queue);
        FileTurn(answers);
        assert h.(wire := old(h.wire), failed := old(h.failed)) == h1;
      }
    }

    /** A file request of length 0. */
    method SendNoFile(id: nat)
      requires Valid() && file == []
      modifies this`file, this`inflight, this`fileLog, this`active, this`queue, this`h
      ensures Valid() && file == []
      ensures
        if old(active) == [] then
          && h == old(h).(fileCalls := old(h.fileCalls) + [id]) && fileLog == old(fileLog) + [Callback(id, 0)]
          && MovedUp(old(queue), [], active, queue)
        else
          h == LosingNew(old(h), id) && fileLog == old(fileLog) && active == old(active) && queue == old(queue)
    {
      hide Fits, InOrder, Once, Reported, OnceFile, Plan, MovedUp, Pending;
      OnceFileCall(h.fileCalls, fileLog, id, h.lost);
      inflight := inflight + 1;
      if active == [] {
        OrderOf(active, queue, file, h.wire, h.scheduled);
        h := h.(fileCalls := h.fileCalls + [id]);
        FileDone(id, 0);
      } else {
        h := LosingNew(h, id);
      }
    }

    /** A file becomes pending; it is placed before the first marked buffer. */
    method StartFile(id: nat, data: seq<Byte>, len: nat)
      requires Valid() && file == [] && len > 0 && |data| <= len
      modifies this`file, this`inflight, this`h
      ensures Valid() && file == [FileJob(id, data, len, 0)] && Scheduling(old(h), h, id, data, active, queue)
    {
      hide Fits, InOrder, Once, Reported, OnceFile, Plan, Leading, Placed, Pending;
      ghost var f := FileJob(id, data, len, 0);
      FitsStart(active, queue, f);
      OnceFileCall(h.fileCalls, fileLog, id, h.lost);
      PlanPush(h.scheduled, h.accepted, h.tangled, data);
      PlanLoose(h.scheduled + data, h.accepted + data, h.tangled);
      PlaceFile(h, active, queue, f);
      ghost var scheduled := if h.failed then h.scheduled + data else h.wire + Pending(active, queue, [f]);
      ghost var tangled := h.tangled || Leading(queue) < |queue|;
      file, inflight := [FileJob(id, data, len, 0)], inflight + 1;
      h := h.(accepted := h.accepted + data, fileCalls := h.fileCalls + [id],
              scheduled := scheduled, tangled := tangled);
    }

    /** dyn_aio_queued: all that is pending, a file counted with its whole requested range. */
    method Queued() returns (n: nat)
      requires Valid()
      ensures n == |Pending(active, queue, file)| + Short(file)
      ensures !h.failed ==> n == |h.accepted| - |h.wire| + Short(file)
    {
      hide Once, Reported, OnceFile, Plan, Leading;
      n := 0;
      if active != [] {
        n := n + (|active[0].buf| - active[0].off);
      }
      ghost var front := n;
      var i := 0;
      assert queue[..0] == [];
      while i < |queue|
        invariant 0 <= i <= |queue| && n == front + |Bytes(queue[..i])|
      {
        assert queue[..i + 1] == queue[..i] + [queue[i]];
        BytesPush(queue[..i], queue[i]);
        n := n + |queue[i].buf|;
        i := i + 1;
      }
      assert queue[..|queue|] == queue;
      if file != [] {
        n := n + (file[0].len - file[0].sent);
      }
      BytesConcat(queue, Ahead(queue, file));
      AsLong(h.scheduled, h.accepted, h.tangled);
    }

    /** The write part of dyn_aio_close: the buffer in front gets its callback, the queue is flushed, a file is lost. */
    method Close()
      requires Valid()
      modifies this`active, this`queue, this`file, this`flushing, this`inflight, this`log, this`h
      ensures Valid() && active == [] && queue == [] && file == []
      ensures old(flushing) <= flushing && |flushing| == |old(flushing)| + |old(queue)|
      ensures forall i :: 0 <= i < |old(queue)| ==>
        flushing[|old(flushing)| + i] == Callback(old(queue)[i].id, -ECONNRESET)
      ensures h == Closing(old(h), old(active), old(queue), old(file))
      ensures log == old(log) + if old(active) != [] then [Callback(old(active)[0].id, -ECONNRESET)] else []
    {
      hide Fits, InOrder, Once, Reported, OnceFile, Plan;
      if active != [] {
        DropFront(-ECONNRESET);
      }
      Abandon();
    }

    /** The queue is taken off for its callbacks and the file given up. */
    method Abandon()
      requires Valid() && active == []
      modifies this`queue, this`file, this`flushing, this`inflight, this`h
      ensures Valid() && queue == [] && file == []
      ensures old(flushing) <= flushing && |flushing| == |old(flushing)| + |old(queue)|
      ensures forall i :: 0 <= i < |old(queue)| ==>
        flushing[|old(flushing)| + i] == Callback(old(queue)[i].id, -ECONNRESET)
      ensures h == Closing(old(h), [], old(queue), old(file))
    {
      hide Fits, InOrder, Once, Reported, OnceFile, Plan;
      FitsFacts(active, queue, file);
      FitsEmpty(active, queue, file);
      OnceFlush(h.calls, log, active, queue, flushing, -ECONNRESET);
      ReportedFlush(log, active, queue, flushing, -ECONNRESET);
      OnceFileLost(h.fileCalls, fileLog, FileIds(file), h.lost);
      h := Closing(h, active, queue, file);
      inflight, flushing := inflight - |file|, flushing + Aborted(queue, -ECONNRESET);
      queue, file := [], [];
    }

    // ----- whole runs -----

    /** The socket is ready for the buffer in front, if there is one. */
    method WritableTurn(answer: Answer)
      requires Valid()
      modifies this`active, this`queue, this`inflight, this`log, this`error, this`h
      ensures Valid() && old(h.wire) <= h.wire && h == old(h).(wire := h.wire, failed := h.failed)
      ensures old(h.failed) ==> h.failed
      ensures old(active) != [] && answer.Sent? ==> |h.wire| > |old(h.wire)|
      ensures old(active) != [] && answer.Failure? ==>
        log == old(log) + [Callback(old(active[0].id), -(answer.errno as int))]
    {
      hide Fits, InOrder, Once, Reported, OnceFile, Plan, MovedUp;
      FitsFacts(active, queue, file);
      if active != [] {
        WriteTurn(answer);
      }
    }

    /** The socket is ready for the file, if nothing is in front of it. */
    method FileWritableTurn(answers: seq<Answer>)
      requires Valid()
      modifies this`file, this`inflight, this`fileLog, this`active, this`queue, this`h
      ensures Valid() && old(h.wire) <= h.wire && h == old(h).(wire := h.wire, failed := h.failed)
      ensures old(h.failed) ==> h.failed
      ensures old(active) == [] && |old(file)| == 1 ==>
        || |fileLog| == |old(fileLog)| + 1
        || file == [old(file[0]).(sent := Position(old(file[0].sent), |old(file[0].data)|, answers, Passed(answers)))]
    {
      hide Fits, InOrder, Once, Reported, OnceFile, Plan, MovedUp, Reach, Stop, Outcome, Position, Passed;
      FitsFacts(active, queue, file);
      if active == [] && |file| == 1 {
        ReachIs(file[0].sent, |file[0].data|, answers);
        FileTurn(answers);
      }
    }

    ghost function Now(): (s: State)
      reads this
    {
      State(active, queue, file, flushing, error, log, fileLog, h)
    }

    /** One thing that can happen. */
    method Happen(e: Event)
      requires Valid()
      modifies this
      ensures Valid() && (old(h.failed) ==> h.failed) && old(h.wire) <= h.wire
      ensures h.lost == old(h.lost) + Loses(Moment(e, old(active), old(queue), old(file)))
      ensures h.tangled == (old(h.tangled) || Overtakes(Moment(e, old(active), old(queue), old(file))))
      ensures old(h.accepted) <= h.accepted
      ensures !old(h.failed) ==>
        if Overtakes(Moment(e, old(active), old(queue), old(file))) then
          Placed(old(h.wire), old(active), old(queue), e.data, old(h.scheduled), h.scheduled)
        else
          h.scheduled == old(h.scheduled) + h.accepted[|old(h.accepted)|..]
      ensures Takes(e, old(Now()), Now())
    {
      hide Valid, Reach, Stop, MovedUp, Leading, Placed, Outcome, Position, Passed, RefusedAt;
      match e {
        case Sends(id, buf, answers) => var ok := SendRaw(id, buf, answers);
        case SendsFile(id, data, len, answers) =>
          if |data| <= len {
            var ok := SendFile(id, data, len, answers);
            PlacedLast(old(h.wire), old(active), old(queue), data, old(h.scheduled), h.scheduled);
          }
        case Writable(answer) => WritableTurn(answer);
        case FileWritable(answers) => FileWritableTurn(answers);
        case Flushes =>
          if error < 0 {
            Flush();
          }
        case FlushNext =>
          if flushing != [] {
            FlushOne();
          }
        case Closes => Close();
      }
    }

    /**
      * Every run, with no exception: until the first socket error or close the wire holds a prefix of the schedule,
      * which rearranges call order and is call order as long as no file is started over marked buffers. The write
      * share of inflight is one for a buffer and one for a file. Every accepted send has had its callback or still
      * waits for it, once, and a callback reports the bytes asked for or an error. A file request has had all its
      * callbacks exactly when it is neither pending nor lost, and it is lost exactly at the moments that Loses names.
      */
    method Run(events: seq<Event>) returns (ghost path: seq<Moment>)
      requires Valid()
      modifies this
      ensures Valid() && old(h.wire) <= h.wire && inflight == others + |active| + |file| + h.leaks
      ensures |path| == |events| && forall i :: 0 <= i < |path| ==> path[i].event == events[i]
      ensures !h.failed ==> h.wire <= h.scheduled
      ensures Rearranged(h.scheduled, h.accepted) && (!h.tangled ==> h.scheduled == h.accepted)
      ensures h.tangled <==> old(h.tangled) || exists i :: 0 <= i < |path| && Overtakes(path[i])
      ensures h.lost == old(h.lost) + AllLost(path)
      ensures multiset(h.calls)
        == multiset(LogIds(log)) + multiset(ActiveIds(active)) + multiset(NodeIds(queue)) + multiset(LogIds(flushing))
      ensures forall i :: 0 <= i < |log| ==> log[i].result == log[i].id.asked || log[i].result < 0
      ensures forall id: nat ::
        Count(LogIds(fileLog), id) == Count(h.fileCalls, id) <==> id !in FileIds(file) && id !in h.lost
    {
      hide Valid, Loses, Overtakes, FileIds, AllLost;
      path := [];
      NoneLost();
      var i := 0;
      while i < |events|
        invariant 0 <= i <= |events| && Valid() && old(h.wire) <= h.wire
        invariant |path| == i && forall k :: 0 <= k < i ==> path[k].event == events[k]
        invariant h.tangled <==> old(h.tangled) || exists k :: 0 <= k < i && Overtakes(path[k])
        invariant h.lost == old(h.lost) + AllLost(path)
      {
        ghost var m := Moment(events[i], active, queue, file);
        LostPush(path, m);
        Happen(events[i]);
        path := path + [m];
        assert path[i] == m;
        i := i + 1;
      }
      Summary();
      forall id: nat
        ensures Count(LogIds(fileLog), id) == Count(h.fileCalls, id) <==> id !in FileIds(file) && id !in h.lost
      {
        FileCalledBack(id);
      }
    }

    lemma Summary()
      requires Valid()
      ensures inflight == others + |active| + |file| + h.leaks && (!h.failed ==> h.wire <= h.scheduled)
      ensures Rearranged(h.scheduled, h.accepted) && (!h.tangled ==> h.scheduled == h.accepted)
      ensures multiset(h.calls)
        == multiset(LogIds(log)) + multiset(ActiveIds(active)) + multiset(NodeIds(queue)) + multiset(LogIds(flushing))
      ensures forall i :: 0 <= i < |log| ==> log[i].result == log[i].id.asked || log[i].result < 0
    {
      assert forall i :: 0 <= i < |log| ==> Reports(log[i]);
    }
  }

  // ----- what can happen -----

  /** File 1 waits for the socket. */
  method FileWaiting() returns (w: Writer)
    ensures fresh(w) && w.Valid() && !w.h.failed && w.h.accepted == [1] && w.h.wire == []
    ensures w.active == [] && w.queue == [] && w.file == [FileJob(1, [1], 1, 0)]
  {
    hide Fits, InOrder, Once, Reported, OnceFile, Plan, Placed;
    w := new Writer(0);
    var ok := w.SendFile(1, [1], 1, [WouldBlock]);
  }

  /** While file 1 waits, buffers 2 and 3 are queued and marked for it; then it goes out and buffer 2 comes up. */
  method TwoMarked() returns (w: Writer)
    ensures fresh(w) && w.Valid() && !w.h.failed && w.h.accepted == [1, 2, 3] && w.h.wire == [1]
    ensures w.active == [Active(Call(2, 1), [2], 0, 1)] && w.queue == [Node(Call(3, 1), [3], true)] && w.file == []
  {
    hide Fits, InOrder, Once, Reported, OnceFile, Plan, Placed;
    w := FileWaiting();
    var ok := w.SendRaw(2, [2], []);
    ok := w.SendRaw(3, [3], []);
    assert w.queue == [Node(Call(2, 1), [2], true), Node(Call(3, 1), [3], true)] && w.h.accepted == [1, 2, 3];
    w.FileTurn([Sent(1)]);
  }

  /** A run that leaves call order: buffer 3 still carries its mark when file 4 is called, so the file goes first. */
  method Overtaking() returns (w: Writer)
    ensures w.Valid() && !w.h.failed && w.h.tangled
    ensures w.h.accepted == [1, 2, 3, 4] && w.h.wire == [1, 2, 4] && !(w.h.wire <= w.h.accepted)
  {
    hide Fits, InOrder, Once, Reported, OnceFile, Plan, Placed;
    w := TwoMarked();
    var ok := w.SendFile(4, [4], 1, []);
    w.WriteTurn(Sent(1));
    assert w.h.wire == [1, 2] && w.active == [] && w.file == [FileJob(4, [4], 1, 0)];
    w.FileTurn([Sent(1)]);
    assert w.h.wire[2] != w.h.accepted[2];
  }

  /** A file request of length 0 behind an active buffer: nothing is left to do, and it has had no callback. */
  method LostAtCall(others: nat) returns (w: Writer)
    ensures w.Valid() && w.active == [] && w.queue == [] && w.file == [] && !w.h.failed
    ensures w.h.fileCalls == [7] && w.fileLog == [] && w.h.lost == [7] && w.inflight == others + 1
  {
    hide Fits, InOrder, Once, Reported, OnceFile, Plan, Placed;
    w := new Writer(others);
    var ok := w.SendRaw(1, [1], [WouldBlock]);
    ok := w.SendFile(7, [], 0, []);
    w.WriteTurn(Sent(1));
  }

  /** A file pending at a close: nothing is left to do, and it has had no callback. */
  method LostAtClose(others: nat) returns (w: Writer)
    ensures w.Valid() && w.active == [] && w.queue == [] && w.file == [] && w.flushing == []
    ensures w.h.fileCalls == [5] && w.fileLog == [] && w.h.lost == [5] && w.inflight == others
  {
    hide Fits, InOrder, Once, Reported, OnceFile, Plan, Placed;
    w := new Writer(others);
    var ok := w.SendFile(5, [1], 1, [WouldBlock]);
    w.Close();
  }

  /** A file that ends before its range: the byte it holds goes out, and its one callback reports EIO. */
  method ShortFile() returns (w: Writer)
    ensures w.Valid() && w.active == [] && w.queue == [] && w.file == [] && w.h.failed && w.h.wire == [9]
    ensures w.h.fileCalls == [1] && w.fileLog == [Callback(1, -EIO)] && w.h.lost == []
  {
    hide Fits, InOrder, Once, Reported, OnceFile, Plan, Placed, Outcome;
    w := new Writer(0);
    var ok := w.SendFile(1, [9], 2, [Sent(1), Sent(0)]);
  }

  datatype Event =
    | Sends(id: nat, buf: seq<Byte>, answers: seq<Answer>)
    | SendsFile(id: nat, data: seq<Byte>, len: nat, answers: seq<Answer>)
    | Writable(answer: Answer)
    | FileWritable(answers: seq<Answer>)
    | Flushes
    | FlushNext
    | Closes

  datatype State = State(active: seq<Active>, queue: seq<Node>, file: seq<FileJob>, flushing: Log,
                         error: int, log: Log, fileLog: seq<Callback<nat>>, h: History)

  /** Whatever can happen does: the effect of an event on the state it finds. */
  ghost predicate Takes(e: Event, s: State, t: State) {
    match e
    case Sends(id, buf, answers) =>
      |buf| <= INT_MAX ==>
        if buf == [] || s.active != [] || s.queue != [] || s.file != [] then t.h.calls == s.h.calls + [Call(id, |buf|)]
        else t.h.wire == s.h.wire + buf[..Position(0, |buf|, answers, Passed(answers))]
    case SendsFile(id, data, len, _) =>
      |data| <= len && s.file == [] ==> t.h.fileCalls == s.h.fileCalls + [id]
    case Writable(answer) =>
      && (s.active != [] && answer.Sent? ==> |t.h.wire| > |s.h.wire|)
      && (s.active != [] && answer.Failure? ==> t.log == s.log + [Callback(s.active[0].id, -(answer.errno as int))])
    case FileWritable(answers) =>
      s.active == [] && |s.file| == 1 ==>
        var f := s.file[0];
        || |t.fileLog| == |s.fileLog| + 1
        || t.file == [f.(sent := Position(f.sent, |f.data|, answers, Passed(answers)))]
    case Flushes => s.error < 0 ==> t.queue == [] && |t.flushing| == |s.flushing| + |s.queue|
    case FlushNext => s.flushing != [] ==> t.log == s.log + [s.flushing[0]]
    case Closes => t.active == [] && t.queue == [] && t.file == [] && |t.flushing| == |s.flushing| + |s.queue|
  }

  /** An event and what was pending when it happened. */
  datatype Moment = Moment(event: Event, active: seq<Active>, queue: seq<Node>, file: seq<FileJob>)

  /** The file request a moment loses: one of length 0 behind an active buffer, or the one pending at a close. */
  function Loses(m: Moment): (ids: seq<nat>) {
    match m.event
    case SendsFile(id, data, len, _) => if len == 0 && data == [] && m.file == [] && m.active != [] then [id] else []
    case Closes => FileIds(m.file)
    case _ => []
  }

  /** A file of some length is started while marked buffers are queued. */
  predicate Overtakes(m: Moment) {
    && m.event.SendsFile? && 0 < m.event.len && |m.event.data| <= m.event.len
    && m.file == [] && Leading(m.queue) < |m.queue|
  }

  function AllLost(path: seq<Moment>): (ids: seq<nat>) {
    if path == [] then [] else AllLost(path[..|path| - 1]) + Loses(path[|path| - 1])
  }

  lemma LostPush(path: seq<Moment>, m: Moment)
    ensures AllLost(path + [m]) == AllLost(path) + Loses(m)
  {
    assert (path + [m])[..|path|] == path;
  }

  lemma NoneLost()
    ensures AllLost([]) == []
  {}

  /** A send is accepted: its bytes come last. */
  function Accepting(h: History, id: Call, buf: seq<Byte>): (h': History) {
    h.(calls := h.calls + [id], accepted := h.accepted + buf, scheduled := h.scheduled + buf)
  }

  /** A file request is lost as it is made. */
  function LosingNew(h: History, id: nat): (h': History) {
    h.(fileCalls := h.fileCalls + [id], lost := h.lost + [id], leaks := h.leaks + 1)
  }

  /** A close cuts off whatever is pending. */
  function Closing(h: History, active: seq<Active>, queue: seq<Node>, file: seq<FileJob>): (h': History) {
    h.(failed := h.failed || active != [] || queue != [] || file != [], lost := h.lost + FileIds(file))
  }

  /** A file request is accepted and its bytes are placed in the schedule. */
  ghost predicate Scheduling(h0: History, h: History, id: nat, data: seq<Byte>, active: seq<Active>, queue: seq<Node>) {
    && h == h0.(accepted := h0.accepted + data, fileCalls := h0.fileCalls + [id],
                tangled := h0.tangled || Leading(queue) < |queue|, scheduled := h.scheduled)
    && (!h0.failed ==> Placed(h0.wire, active, queue, data, h0.scheduled, h.scheduled))
  }

  /** With no marked buffer queued the file comes last. */
  lemma PlacedLast(wire: seq<Byte>, active: seq<Active>, queue: seq<Node>, data: seq<Byte>,
                   before: seq<Byte>, after: seq<Byte>)
    ensures Placed(wire, active, queue, data, before, after) && Leading(queue) == |queue| ==> after == before + data
  {}

  lemma SchedulingKeeps(h0: History, h: History, id: nat, data: seq<Byte>, active: seq<Active>, queue: seq<Node>)
    requires Scheduling(h0, h, id, data, active, queue)
    ensures h.wire == h0.wire && h.failed == h0.failed
  {}

  /**
    * Where a file goes in the schedule: behind the active buffer and the leading unmarked ones, before all others.
    * That keeps call order exactly when its bytes commute with the bytes it overtakes, so in particular when there
    * are none.
    */
  ghost predicate Placed(wire: seq<Byte>, active: seq<Active>, queue: seq<Node>, data: seq<Byte>,
                         before: seq<Byte>, after: seq<Byte>) {
    var k := Leading(queue);
    var head, tail := wire + ActiveRest(active) + Bytes(queue[..k]), Bytes(queue[k..]);
    && before == head + tail && after == head + data + tail
    && (after == before + data <==> data + tail == tail + data)
    && (tail == [] <==> k == |queue|)
  }

  // ----- the fields fit together -----

  lemma NothingYet()
    ensures Fits([], [], []) && InOrder([], [], [], [], []) && Once([], [], [], [], []) && OnceFile([], [], [], [])
    ensures Plan([], [], false) && Reported([], [], [], [])
  {
    assert LogIds<Call>([]) == [] && LogIds<nat>([]) == [] && ActiveIds([]) == [] && NodeIds([]) == [];
  }

  lemma FitsFacts(active: seq<Active>, queue: seq<Node>, file: seq<FileJob>)
    requires Fits(active, queue, file)
    ensures |active| <= 1 && |file| <= 1 && (active != [] ==> active[0].off < |active[0].buf|)
    ensures file != [] ==> file[0].sent < file[0].len && file[0].sent <= |file[0].data| <= file[0].len
  {}

  lemma FitsSend(w: Active, k: nat, queue: seq<Node>, file: seq<FileJob>)
    requires Fits([w], queue, file)
    ensures Fits([], queue, file) && (w.off + k < |w.buf| ==> Fits([w.(off := w.off + k)], queue, file))
  {}

  lemma FitsPromote(queue: seq<Node>, file: seq<FileJob>)
    requires Fits([], queue, file) && queue != []
    ensures Fits([Front(queue[0])], queue[1..], file)
  {}

  lemma FitsEmpty(active: seq<Active>, queue: seq<Node>, file: seq<FileJob>)
    requires Fits(active, queue, file)
    ensures Fits(active, [], file) && Fits(active, [], [])
  {}

  lemma FitsFile(f: FileJob, sent: nat, queue: seq<Node>)
    requires Fits([], queue, [f]) && f.sent <= sent <= |f.data|
    ensures Fits([], queue, []) && (sent < f.len ==> Fits([], queue, [f.(sent := sent)]))
  {}

  lemma FitsQueue(active: seq<Active>, queue: seq<Node>, file: seq<FileJob>, n: Node)
    requires Fits(active, queue, file) && n.buf != []
    ensures Fits(active, queue + [n], file)
  {}

  lemma FitsStart(active: seq<Active>, queue: seq<Node>, f: FileJob)
    requires Fits(active, queue, []) && f.sent == 0 < f.len && |f.data| <= f.len
    ensures Fits(active, queue, [f])
  {}

  // ----- each call once -----

  /** A send whose callback is made at once. */
  lemma OnceNow(calls: seq<Call>, log: Log, active: seq<Active>, queue: seq<Node>, flushing: Log,
                id: Call, r: int)
    requires Once(calls, log, active, queue, flushing)
    ensures Once(calls + [id], log + [Callback(id, r)], active, queue, flushing)
  {
    assert LogIds(log + [Callback(id, r)]) == LogIds(log) + [id];
  }

  lemma OnceFront(calls: seq<Call>, log: Log, flushing: Log, w: Active)
    requires Once(calls, log, [], [], flushing)
    ensures Once(calls + [w.id], log, [w], [], flushing)
  {
    assert ActiveIds([w]) == [w.id] && ActiveIds([]) == [];
  }

  lemma OnceQueue(calls: seq<Call>, log: Log, active: seq<Active>, queue: seq<Node>, flushing: Log,
                  n: Node)
    requires Once(calls, log, active, queue, flushing)
    ensures Once(calls + [n.id], log, active, queue + [n], flushing)
  {
    assert NodeIds(queue + [n]) == NodeIds(queue) + [n.id];
  }

  lemma SameIds(w: Active, k: nat, calls: seq<Call>, log: Log, queue: seq<Node>, flushing: Log)
    requires Once(calls, log, [w], queue, flushing)
    ensures Once(calls, log, [w.(off := w.off + k)], queue, flushing)
  {
    assert ActiveIds([w.(off := w.off + k)]) == [w.id] && ActiveIds([w]) == [w.id];
  }

  lemma FrontIds(calls: seq<Call>, log: Log, w: Active, queue: seq<Node>, flushing: Log)
    ensures Once(calls, log, [w], queue, flushing) ==> Once(calls, log, [Active(w.id, [], 0, w.full)], queue, flushing)
  {
    assert ActiveIds([Active(w.id, [], 0, w.full)]) == [w.id] && ActiveIds([w]) == [w.id];
  }

  lemma OnceFlush(calls: seq<Call>, log: Log, active: seq<Active>, queue: seq<Node>, flushing: Log,
                  result: int)
    requires Once(calls, log, active, queue, flushing)
    ensures Once(calls, log, active, [], flushing + Aborted(queue, result))
  {
    assert LogIds(flushing + Aborted(queue, result)) == LogIds(flushing) + NodeIds(queue) && NodeIds([]) == [];
  }

  lemma OnceFlushed(calls: seq<Call>, log: Log, active: seq<Active>, queue: seq<Node>, flushing: Log)
    requires Once(calls, log, active, queue, flushing) && flushing != []
    ensures Once(calls, log + [flushing[0]], active, queue, flushing[1..])
  {
    assert LogIds(log + [flushing[0]]) == LogIds(log) + [flushing[0].id];
    assert LogIds(flushing) == [flushing[0].id] + LogIds(flushing[1..]);
  }

  // ----- what is reported -----

  lemma ReportedNow(log: Log, active: seq<Active>, queue: seq<Node>, flushing: Log,
                    c: Callback<Call>)
    requires Reported(log, active, queue, flushing) && Reports(c)
    ensures Reported(log + [c], active, queue, flushing)
  {}

  lemma ReportedTake(log: Log, queue: seq<Node>, flushing: Log)
    requires Reported(log, [], queue, flushing) && queue != []
    ensures Reported(log, [Front(queue[0])], queue[1..], flushing)
  {}

  lemma ReportedFinish(log: Log, w: Active, queue: seq<Node>, flushing: Log, r: int)
    requires Reported(log, [w], queue, flushing) && (r == w.full || r < 0)
    ensures Reported(log + [Callback(w.id, r)], [], queue, flushing)
  {
    assert [w][0].full == w.id.asked;
  }

  lemma ReportedSame(log: Log, w: Active, v: Active, queue: seq<Node>, flushing: Log)
    requires Reported(log, [w], queue, flushing) && v.id == w.id && v.full == w.full
    ensures Reported(log, [v], queue, flushing)
  {
    assert [w][0].full == w.id.asked;
  }

  lemma ReportedFront(log: Log, flushing: Log, w: Active)
    requires Reported(log, [], [], flushing) && w.full == w.id.asked
    ensures Reported(log, [w], [], flushing)
  {}

  lemma ReportedQueue(log: Log, active: seq<Active>, queue: seq<Node>, flushing: Log,
                      n: Node)
    requires Reported(log, active, queue, flushing) && |n.buf| == n.id.asked
    ensures Reported(log, active, queue + [n], flushing)
  {}

  lemma ReportedFlush(log: Log, active: seq<Active>, queue: seq<Node>, flushing: Log,
                      r: int)
    requires Reported(log, active, queue, flushing) && r < 0
    ensures Reported(log, active, [], flushing + Aborted(queue, r))
  {}

  lemma ReportedFlushed(log: Log, active: seq<Active>, queue: seq<Node>, flushing: Log)
    requires Reported(log, active, queue, flushing) && flushing != []
    ensures Reported(log + [flushing[0]], active, queue, flushing[1..])
  {}

  // ----- file requests -----

  lemma OnceFileCall(calls: seq<nat>, log: seq<Callback<nat>>, id: nat, lost: seq<nat>)
    requires OnceFile(calls, log, [], lost)
    ensures OnceFile(calls + [id], log, [id], lost) && OnceFile(calls + [id], log, [], lost + [id])
  {
    assert multiset([id]) == multiset{id};
  }

  lemma OnceFileDone(calls: seq<nat>, log: seq<Callback<nat>>, id: nat, lost: seq<nat>, r: int)
    requires OnceFile(calls, log, [id], lost)
    ensures OnceFile(calls, log + [Callback(id, r)], [], lost)
  {
    assert LogIds(log + [Callback(id, r)]) == LogIds(log) + [id];
  }

  lemma OnceFileLost(calls: seq<nat>, log: seq<Callback<nat>>, pending: seq<nat>, lost: seq<nat>)
    requires OnceFile(calls, log, pending, lost)
    ensures OnceFile(calls, log, [], lost + pending)
  {}

  lemma FileCount(calls: seq<nat>, log: seq<Callback<nat>>, pending: seq<nat>, lost: seq<nat>, id: nat)
    requires OnceFile(calls, log, pending, lost)
    ensures Count(LogIds(log), id) == Count(calls, id) <==> id !in pending && id !in lost
    ensures Count(LogIds(log), id) <= Count(calls, id)
  {
    var made: seq<nat> := LogIds(log);
    assert multiset(calls) == multiset(made) + multiset(pending) + multiset(lost);
    assert id in pending <==> multiset(pending)[id] > 0;
    assert id in lost <==> multiset(lost)[id] > 0;
  }

  /** The callback of the buffer in front counts for it. */
  lemma OnceFinish(calls: seq<Call>, log: Log, id: Call, full: nat, queue: seq<Node>,
                   flushing: Log, r: int)
    requires Once(calls, log, [Active(id, [], 0, full)], queue, flushing)
    ensures Once(calls, log + [Callback(id, r)], [], queue, flushing)
  {
    assert ActiveIds([Active(id, [], 0, full)]) == [id] && ActiveIds([]) == [];
    assert LogIds(log + [Callback(id, r)]) == LogIds(log) + [id];
  }

  /** The buffer that comes to the front was the first of the queue. */
  lemma OncePromote(calls: seq<Call>, log: Log, queue: seq<Node>, flushing: Log)
    requires queue != [] && Once(calls, log, [], queue, flushing)
    ensures Once(calls, log, [Front(queue[0])], queue[1..], flushing)
  {
    assert ActiveIds([]) == [] && ActiveIds([Front(queue[0])]) == [queue[0].id];
    assert NodeIds(queue) == [queue[0].id] + NodeIds(queue[1..]);
  }

  // ----- the bytes in order -----

  lemma {:induction false} BytesPush(queue: seq<Node>, n: Node)
    ensures Bytes(queue + [n]) == Bytes(queue) + n.buf
    decreases |queue|
  {
    if queue == [] {
      assert queue + [n] == [n] && [n][1..] == [];
      assert n.buf + [] == n.buf;
    } else {
      assert (queue + [n])[1..] == queue[1..] + [n];
      BytesPush(queue[1..], n);
      assert queue[0].buf + (Bytes(queue[1..]) + n.buf) == (queue[0].buf + Bytes(queue[1..])) + n.buf;
    }
  }

  lemma {:induction false} BytesConcat(queue: seq<Node>, k: nat)
    requires k <= |queue|
    ensures Bytes(queue) == Bytes(queue[..k]) + Bytes(queue[k..])
    decreases k
  {
    if k == 0 {
      assert queue[0..] == queue && queue[..0] == [];
    } else {
      BytesConcat(queue[1..], k - 1);
      assert queue[1..][..k - 1] == queue[..k][1..] && queue[1..][k - 1..] == queue[k..];
      var a, b, c := queue[0].buf, Bytes(queue[..k][1..]), Bytes(queue[k..]);
      assert a + (b + c) == (a + b) + c;
    }
  }

  lemma NothingPending()
    ensures Pending([], [], []) == [] && Bytes([]) == []
  {}

  lemma OrderOf(active: seq<Active>, queue: seq<Node>, file: seq<FileJob>, wire: seq<Byte>, scheduled: seq<Byte>)
    ensures InOrder(active, queue, file, wire, scheduled) ==> wire + Pending(active, queue, file) == scheduled
  {}

  /** Attempts add up. */
  lemma MoreSent(wire: seq<Byte>, data: seq<Byte>, start: nat, off: nat, k: nat)
    requires start <= off && off + k <= |data|
    ensures (wire + data[start..off]) + data[off..off + k] == wire + data[start..off + k]
  {
    assert data[start..off] + data[off..off + k] == data[start..off + k];
  }

  /** A send into the idle state: nothing is left, or its rest is all that is pending. */
  lemma SplitSend(id: Call, wire: seq<Byte>, buf: seq<Byte>, off: nat, scheduled: seq<Byte>)
    requires off <= |buf|
    ensures Fits([], [], []) && (off < |buf| ==> Fits([Active(id, buf[off..], 0, |buf|)], [], []))
    ensures InOrder([], [], [], wire, scheduled) ==>
      && (off == |buf| ==> InOrder([], [], [], wire + buf[..off], scheduled + buf))
      && (off < |buf| ==> InOrder([Active(id, buf[off..], 0, |buf|)], [], [], wire + buf[..off], scheduled + buf))
  {
    NothingPending();
    assert wire + [] == wire && buf[..off] + buf[off..] == buf;
    assert (wire + buf[..off]) + buf[off..] == wire + (buf[..off] + buf[off..]);
    assert off == |buf| ==> buf[off..] == [];
    assert ActiveRest([Active(id, buf[off..], 0, |buf|)]) == buf[off..];
    assert buf[off..] + [] + [] + [] == buf[off..];
  }

  /** A buffer queued last adds its bytes at the end, behind a pending file or not. */
  lemma AppendBytes(active: seq<Active>, queue: seq<Node>, file: seq<FileJob>, n: Node, wire: seq<Byte>,
                    scheduled: seq<Byte>)
    requires n.afterFile == (file != []) && (active != [] || queue != [] || file != [])
    ensures InOrder(active, queue, file, wire, scheduled) ==>
      InOrder(active, queue + [n], file, wire, scheduled + n.buf)
  {
    hide Pending;
    PendingPush(active, queue, file, n);
    assert wire + (Pending(active, queue, file) + n.buf) == (wire + Pending(active, queue, file)) + n.buf;
  }

  lemma PendingPush(active: seq<Active>, queue: seq<Node>, file: seq<FileJob>, n: Node)
    requires n.afterFile == (file != [])
    ensures Pending(active, queue + [n], file) == Pending(active, queue, file) + n.buf
  {
    hide Bytes, Leading;
    var k := Ahead(queue, file);
    if file == [] {
      assert (queue + [n])[..k + 1] == queue + [n] && (queue + [n])[k + 1..] == [];
      assert queue[..k] == queue && queue[k..] == [];
      BytesPush(queue, n);
      NothingPending();
    } else {
      LeadingUnique(queue + [n], k);
      assert (queue + [n])[..k] == queue[..k] && (queue + [n])[k..] == queue[k..] + [n];
      BytesPush(queue[k..], n);
    }
  }

  lemma LeadingUnique(queue: seq<Node>, k: nat)
    requires k <= |queue| && (forall i :: 0 <= i < k ==> !queue[i].afterFile) && (k < |queue| ==> queue[k].afterFile)
    ensures Leading(queue) == k
  {
    hide Leading;
  }

  /** Sending from the front moves bytes from what is pending to the wire. */
  lemma SendBytes(wire: seq<Byte>, w: Active, k: nat, queue: seq<Node>, file: seq<FileJob>, scheduled: seq<Byte>)
    requires w.off + k <= |w.buf|
    ensures InOrder([w], queue, file, wire, scheduled) ==>
      var wire' := wire + w.buf[w.off..w.off + k];
      && (w.off + k < |w.buf| ==> InOrder([w.(off := w.off + k)], queue, file, wire', scheduled))
      && (w.off + k == |w.buf| ==> wire' + Pending([], queue, file) == scheduled)
  {
    hide Pending;
    MovedBytes(wire, w, k, queue, file);
  }

  lemma MovedBytes(wire: seq<Byte>, w: Active, k: nat, queue: seq<Node>, file: seq<FileJob>)
    requires w.off + k <= |w.buf|
    ensures
      var wire' := wire + w.buf[w.off..w.off + k];
      && wire' + Pending([w.(off := w.off + k)], queue, file) == wire + Pending([w], queue, file)
      && (w.off + k == |w.buf| ==> wire' + Pending([], queue, file) == wire + Pending([w], queue, file))
  {
    hide Bytes, Ahead, FileRest;
    var a, b := w.buf[w.off..w.off + k], w.buf[w.off + k..];
    assert a + b == w.buf[w.off..];
    var i := Ahead(queue, file);
    Regroup(wire, a, b, Bytes(queue[..i]), FileRest(file), Bytes(queue[i..]));
    assert w.off + k == |w.buf| ==> b == [];
  }

  lemma Regroup(wire: seq<Byte>, a: seq<Byte>, b: seq<Byte>, x: seq<Byte>, y: seq<Byte>, z: seq<Byte>)
    ensures (wire + a) + (b + x + y + z) == wire + ((a + b) + x + y + z)
  {}

  /** The file's bytes come next when nothing is in front; when it is through the queue is all that is left. */
  lemma FileMoved(wire: seq<Byte>, f: FileJob, sent: nat, queue: seq<Node>, scheduled: seq<Byte>)
    requires f.sent <= sent <= |f.data|
    ensures InOrder([], queue, [f], wire, scheduled) ==>
      var wire' := wire + f.data[f.sent..sent];
      && InOrder([], queue, [f.(sent := sent)], wire', scheduled)
      && (sent == |f.data| ==> wire' + Pending([], queue, []) == scheduled)
  {
    hide Pending;
    if InOrder([], queue, [f], wire, scheduled) {
      assert Leading(queue) == 0;
      var a, b, z := f.data[f.sent..sent], f.data[sent..], Bytes(queue);
      assert a + b == f.data[f.sent..];
      FileFirst(queue, f);
      FileFirst(queue, f.(sent := sent));
      QueueOnly(queue);
      assert wire + ((a + b) + z) == (wire + a) + (b + z);
      assert sent == |f.data| ==> b + z == z;
    }
  }

  lemma FileFirst(queue: seq<Node>, f: FileJob)
    requires Leading(queue) == 0 && f.sent <= |f.data|
    ensures Pending([], queue, [f]) == f.data[f.sent..] + Bytes(queue)
  {
    hide Bytes, Leading;
    assert queue[..0] == [] && queue[0..] == queue;
    NothingPending();
    assert [] + [] + f.data[f.sent..] + Bytes(queue) == f.data[f.sent..] + Bytes(queue);
  }

  lemma QueueOnly(queue: seq<Node>)
    ensures Pending([], queue, []) == Bytes(queue)
  {
    hide Bytes;
    assert queue[..|queue|] == queue && queue[|queue|..] == [];
    NothingPending();
    assert [] + Bytes(queue) + [] + [] == Bytes(queue);
  }

  /** Promotion moves no bytes. */
  lemma PendingPromote(queue: seq<Node>, file: seq<FileJob>)
    requires queue != [] && !(queue[0].afterFile && file != [])
    ensures Pending([Front(queue[0])], queue[1..], file) == Pending([], queue, file)
  {
    var a, k := [Front(queue[0])], Ahead(queue, file);
    assert k > 0 && Ahead(queue[1..], file) == k - 1;
    assert ActiveRest(a) == queue[0].buf && ActiveRest([]) == [];
    assert queue[..k][0] == queue[0] && queue[..k][1..] == queue[1..][..k - 1];
    assert queue[1..][k - 1..] == queue[k..];
    assert [] + (queue[0].buf + Bytes(queue[1..][..k - 1])) == queue[0].buf + Bytes(queue[1..][..k - 1]);
  }

  // ----- the schedule -----

  lemma PlanPush(scheduled: seq<Byte>, accepted: seq<Byte>, tangled: bool, c: seq<Byte>)
    requires Plan(scheduled, accepted, tangled)
    ensures Plan(scheduled + c, accepted + c, tangled)
  {}

  lemma AsLong(scheduled: seq<Byte>, accepted: seq<Byte>, tangled: bool)
    requires Plan(scheduled, accepted, tangled)
    ensures |scheduled| == |accepted|
  {
    assert |multiset(scheduled)| == |multiset(accepted)|;
  }

  lemma PlanLoose(scheduled: seq<Byte>, accepted: seq<Byte>, tangled: bool)
    requires Plan(scheduled, accepted, tangled)
    ensures Plan(scheduled, accepted, true)
  {}

  /** A file is placed behind the leading unmarked buffers. */
  lemma PlaceFile(h: History, active: seq<Active>, queue: seq<Node>, f: FileJob)
    requires f.sent == 0 && Fits(active, queue, [f]) && Plan(h.scheduled, h.accepted, h.tangled)
    ensures InOrder(active, queue, [], h.wire, h.scheduled) ==>
      var after := h.wire + Pending(active, queue, [f]);
      && Placed(h.wire, active, queue, f.data, h.scheduled, after) && InOrder(active, queue, [f], h.wire, after)
      && Plan(after, h.accepted + f.data, h.tangled || Leading(queue) < |queue|)
  {
    hide Bytes, ActiveRest, Leading, Plan, Pending;
    var k := Leading(queue);
    var head, tail := h.wire + ActiveRest(active) + Bytes(queue[..k]), Bytes(queue[k..]);
    if InOrder(active, queue, [], h.wire, h.scheduled) {
      PendingParts(h.wire, active, queue, f);
      Commutes(head, f.data, tail);
      TailEmpty(queue[k..]);
      PlanPush(h.scheduled, h.accepted, h.tangled, f.data);
      PlanSwap(head, f.data, tail, h.accepted + f.data, h.tangled);
    }
  }

  lemma PendingParts(wire: seq<Byte>, active: seq<Active>, queue: seq<Node>, f: FileJob)
    requires f.sent == 0
    ensures
      var k := Leading(queue);
      var head, tail := wire + ActiveRest(active) + Bytes(queue[..k]), Bytes(queue[k..]);
      && wire + Pending(active, queue, [f]) == head + f.data + tail
      && wire + Pending(active, queue, []) == head + tail
  {
    hide Bytes, ActiveRest, Leading;
    var k := Leading(queue);
    assert f.data[0..] == f.data && queue[..|queue|] == queue && queue[|queue|..] == [];
    NothingPending();
    BytesConcat(queue, k);
    Regrouped(wire, ActiveRest(active), Bytes(queue[..k]), f.data, Bytes(queue[k..]));
  }

  lemma Regrouped(a: seq<Byte>, b: seq<Byte>, c: seq<Byte>, d: seq<Byte>, e: seq<Byte>)
    ensures a + (b + c + d + e) == (a + b + c) + d + e
    ensures a + (b + (c + e) + [] + []) == (a + b + c) + e
  {}

  lemma Commutes(head: seq<Byte>, data: seq<Byte>, tail: seq<Byte>)
    ensures head + data + tail == (head + tail) + data <==> data + tail == tail + data
  {
    assert head + data + tail == head + (data + tail) && (head + tail) + data == head + (tail + data);
    if head + data + tail == (head + tail) + data {
      assert (head + (data + tail))[|head|..] == data + tail && (head + (tail + data))[|head|..] == tail + data;
    }
  }

  lemma TailEmpty(queue: seq<Node>)
    requires forall i :: 0 <= i < |queue| ==> queue[i].buf != []
    ensures Bytes(queue) == [] <==> queue == []
  {}

  lemma PlanSwap(head: seq<Byte>, data: seq<Byte>, tail: seq<Byte>, total: seq<Byte>, tangled: bool)
    requires Plan((head + tail) + data, total, tangled)
    ensures Plan(head + data + tail, total, tangled || tail != [])
  {
    if tail == [] { assert head + data + tail == (head + tail) + data; }
  }
}
