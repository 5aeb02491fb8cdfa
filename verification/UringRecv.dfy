/**
  * The receive side of src/dyna-aio-uring.c: generation tags, dyn_aio_recv, dyn_aio_recvfrom, dyn_aio_close, the
  * recv and recvfrom parts of uaio_dispatch and the ring of provided buffers.
  *
  * The kernel completes an armed operation when and as often as it likes, with or without a buffer from the ring.
  * A callback may call back in: what follows a callback is a step of its own.
  */
module UringRecv {
  import Rounding

  // ----- user data -----

  /** UD_GEN_MASK + 1. */
  const GENERATIONS: nat := 0x2000_0000

  /** UD: file descriptor, operation and generation in one word. */
  function Pack(fd: nat, op: nat, gen: nat): (ud: nat) {
    fd * 0x400 + gen % GENERATIONS * 0x4000_0000 + op
  }

  function UnpackFd(ud: nat): nat { ud / 0x400 % 0x10_0000 }
  function UnpackOp(ud: nat): nat { ud % 8 }
  function UnpackGen(ud: nat): nat { ud / 0x4000_0000 % GENERATIONS }

  /** The parts come back, and the bits that mark other kinds of completion stay clear. */
  lemma UnpackPack(fd: nat, op: nat, gen: nat)
    requires fd < 0x10_0000 && op < 8
    ensures
      var ud := Pack(fd, op, gen);
      && UnpackFd(ud) == fd && UnpackOp(ud) == op && UnpackGen(ud) == gen % GENERATIONS
      && ud < 0x800_0000_0000_0000
  {
    var g, ud := gen % GENERATIONS, Pack(fd, op, gen);
    Rounding.DivModUnique(ud, 0x400, fd + g * 0x10_0000, op);
    Rounding.DivModUnique(fd + g * 0x10_0000, 0x10_0000, g, fd);
    Rounding.DivModUnique(ud, 0x4000_0000, g, fd * 0x400 + op);
    Rounding.DivModUnique(ud, 8, fd * 0x80 + g * 0x800_0000, op);
  }

  /** A tag taken at one bump count matches at another exactly when whole rounds of generations lie between. */
  lemma TagMatches(taken: nat, now: nat)
    requires taken <= now
    ensures taken % GENERATIONS == now % GENERATIONS <==> (now - taken) % GENERATIONS == 0
    ensures now - taken < GENERATIONS ==> (taken % GENERATIONS == now % GENERATIONS <==> taken == now)
  {}

  // ----- the state -----

  datatype Kind = NoOp | Recv | RecvFrom

  /** The read part of a descriptor's record. */
  datatype Slot = Slot(op: Kind, gen: nat, multishot: bool, enobufs: nat)

  /** An operation the kernel holds. `epoch` counts the descriptor's bumps before it; the program sees only its tag. */
  datatype Armed = Armed(fd: nat, kind: Kind, gen: nat, epoch: nat, multishot: bool)

  /**
    * A completion: result, buffer (-1 for none) and whether more will come. `payload` is the length a datagram's
    * header gives, negative if the header is not valid. `serial` is its number among all the kernel has posted.
    */
  datatype Cqe = Cqe(serial: nat, fd: nat, kind: Kind, gen: nat, epoch: nat, res: int, bid: int, more: bool,
                     payload: int)

  /** What dispatch still has to do after a callback. */
  datatype Rest = Nothing | AfterRecv(c: Cqe, single: bool) | AfterData(c: Cqe) | AfterError(c: Cqe)

  /** A callback: the completion it is made for, the epoch of the descriptor at that moment, and the result given. */
  datatype Delivery = Delivery(c: Cqe, now: nat, result: int)

  /** A completion that has ended without a callback, and the epoch of its descriptor at that moment. */
  datatype Silence = Silence(c: Cqe, now: nat)

  /** What has happened so far: all completions the kernel has posted, and those that have ended in silence. */
  datatype History = History(posted: seq<Cqe>, silent: seq<Silence>)

  const ENOBUFS: int := 105
  const EIO: int := 5
  const EPROTO: int := 71

  function AllBuffers(n: nat): (b: seq<int>)
    ensures |b| == n
  {
    seq(n, i => i)
  }

  /** The buffers in the ring, in completions and in a callback's hands are all the buffers, each once. */
  ghost predicate Conserved(free: seq<int>, held: seq<int>, used: seq<int>, n: nat) {
    multiset(free + held + used) == multiset(AllBuffers(n))
  }

  /** The buffers a completion carries. */
  function Carried(c: Cqe): (b: seq<int>) {
    if c.bid >= 0 then [c.bid] else []
  }

  function Held(cqes: seq<Cqe>): (b: seq<int>) {
    if cqes == [] then [] else Held(cqes[..|cqes| - 1]) + Carried(cqes[|cqes| - 1])
  }

  function InUse(rest: Rest): (b: seq<int>) {
    match rest case AfterRecv(c, _) => Carried(c) case AfterData(c) => Carried(c) case _ => []
  }

  /** The completion a callback in progress is made for. */
  function Kept(rest: Rest): (c: seq<Cqe>) {
    if rest == Nothing then [] else [rest.c]
  }

  // ----- each completion once -----

  function Called(log: seq<Delivery>): (c: seq<Cqe>)
    ensures |c| == |log|
  {
    seq(|log|, i requires 0 <= i < |log| => log[i].c)
  }

  function Silenced(silent: seq<Silence>): (c: seq<Cqe>)
    ensures |c| == |silent|
  {
    seq(|silent|, i requires 0 <= i < |silent| => silent[i].c)
  }

  ghost predicate Numbered(posted: seq<Cqe>) {
    forall i :: 0 <= i < |posted| ==> posted[i].serial == i
  }

  /** Every completion the kernel has posted waits, has had its callback or has ended in silence, once. */
  ghost predicate Accounted(h: History, waiting: seq<Cqe>, log: seq<Delivery>) {
    multiset(h.posted) == multiset(waiting) + multiset(Called(log)) + multiset(Silenced(h.silent))
  }

  /**
    * What the callback of a completion is told. With data in a buffer: the bytes received, or the length the header of
    * a datagram gives, or EPROTO if the header is not valid. Without: the error, 0 at the end of a stream, EIO for a
    * datagram that has none.
    */
  predicate Told(c: Cqe, result: int) {
    && c.kind != NoOp
    && (c.res > 0 && c.bid >= 0 && c.kind == Recv ==> result == c.res)
    && (c.res > 0 && c.bid >= 0 && c.kind == RecvFrom && c.payload >= 0 ==> result == c.payload)
    && (c.res > 0 && c.bid >= 0 && c.kind == RecvFrom && c.payload < 0 ==> result == -EPROTO)
    && (c.res < 0 ==> result == c.res)
    && (c.res == 0 ==> result == if c.kind == Recv then 0 else -EIO)
    && (c.res > 0 && c.bid < 0 ==> result == if c.kind == Recv then 0 else -EIO)
  }

  /** Callbacks are made for the operation their descriptor is doing, and are told the truth. */
  ghost predicate AllTold(log: seq<Delivery>) {
    forall i :: 0 <= i < |log| ==> log[i].c.epoch == log[i].now && Told(log[i].c, log[i].result)
  }

  /** Silence is for completions of an earlier operation, and for those that found no buffer. */
  ghost predicate AllSilent(silent: seq<Silence>) {
    forall i :: 0 <= i < |silent| ==> silent[i].c.epoch < silent[i].now || silent[i].c.res == -ENOBUFS
  }

  lemma AccountedTake(h: History, cqes: seq<Cqe>, log: seq<Delivery>)
    requires cqes != [] && Accounted(h, cqes, log)
    ensures Accounted(h, cqes[1..] + [cqes[0]], log)
  {
    assert cqes == [cqes[0]] + cqes[1..];
  }

  lemma AccountedCall(h: History, cqes: seq<Cqe>, log: seq<Delivery>, d: Delivery)
    requires Accounted(h, cqes + [d.c], log)
    ensures Accounted(h, cqes, log + [d])
  {
    assert Called(log + [d]) == Called(log) + [d.c];
  }

  lemma AccountedSilence(h: History, cqes: seq<Cqe>, log: seq<Delivery>, s: Silence)
    requires Accounted(h, cqes + [s.c], log)
    ensures Accounted(h.(silent := h.silent + [s]), cqes, log)
  {
    assert Silenced(h.silent + [s]) == Silenced(h.silent) + [s.c];
  }

  lemma AccountedPost(h: History, cqes: seq<Cqe>, log: seq<Delivery>, c: Cqe)
    requires Accounted(h, cqes, log) && Numbered(h.posted) && c.serial == |h.posted|
    ensures Accounted(h.(posted := h.posted + [c]), cqes + [c], log) && Numbered(h.posted + [c])
  {}

  /** A numbered completion is in one place only. */
  lemma OnePlace(h: History, waiting: seq<Cqe>, log: seq<Delivery>, i: nat)
    requires Numbered(h.posted) && Accounted(h, waiting, log) && i < |log|
    ensures log[i].c.serial < |h.posted| && h.posted[log[i].c.serial] == log[i].c
    ensures log[i].c !in waiting
    ensures forall j :: 0 <= j < |log| && j != i ==> log[j].c != log[i].c
    ensures forall j :: 0 <= j < |h.silent| ==> h.silent[j].c != log[i].c
  {
    var c, called, silenced := log[i].c, Called(log), Silenced(h.silent);
    assert called[i] == c;
    assert c in multiset(called);
    assert c in multiset(h.posted);
    OneOf(h.posted, c);
    assert multiset(waiting)[c] + multiset(called)[c] + multiset(silenced)[c] == 1;
    forall j | 0 <= j < |log| && j != i ensures log[j].c != c {
      if called[j] == c { TwoOf(called, i, j); }
    }
    forall j | 0 <= j < |h.silent| ensures h.silent[j].c != c { assert silenced[j] in multiset(silenced); }
  }

  lemma OneOf(posted: seq<Cqe>, c: Cqe)
    requires Numbered(posted) && c in posted
    ensures c.serial < |posted| && posted[c.serial] == c && multiset(posted)[c] == 1
  {
    var k := c.serial;
    assert posted == posted[..k] + [c] + posted[k + 1..];
    assert c !in posted[..k] && c !in posted[k + 1..];
  }

  lemma TwoOf(s: seq<Cqe>, i: nat, j: nat)
    requires i < |s| && j < |s| && i != j && s[i] == s[j]
    ensures multiset(s)[s[i]] >= 2
  {
    var a, b := if i < j then i else j, if i < j then j else i;
    assert s == s[..a] + [s[a]] + s[a + 1..b] + [s[b]] + s[b + 1..];
  }

  lemma HeldPush(cqes: seq<Cqe>, c: Cqe)
    ensures Held(cqes + [c]) == Held(cqes) + Carried(c)
  {
    assert (cqes + [c])[..|cqes|] == cqes;
  }

  lemma {:induction false} HeldFirst(cqes: seq<Cqe>)
    requires cqes != []
    ensures Held(cqes) == Carried(cqes[0]) + Held(cqes[1..])
    decreases |cqes|
  {
    var k := |cqes| - 1;
    if k == 0 {
      assert cqes[..0] == [] && cqes[1..] == [];
      assert [] + Carried(cqes[0]) == Carried(cqes[0]) + [];
    } else {
      HeldFirst(cqes[..k]);
      assert cqes[..k][0] == cqes[0] && cqes[..k][1..] == cqes[1..][..k - 1] && cqes[1..][k - 1] == cqes[k];
      assert Carried(cqes[0]) + Held(cqes[..k][1..]) + Carried(cqes[k])
          == Carried(cqes[0]) + (Held(cqes[..k][1..]) + Carried(cqes[k]));
    }
  }

  function SlotOf(slots: map<nat, Slot>, fd: nat): (s: Slot) {
    if fd in slots then slots[fd] else Slot(NoOp, 0, false, 0)
  }

  function EpochOf(epochs: map<nat, nat>, fd: nat): (e: nat) {
    if fd in epochs then epochs[fd] else 0
  }

  /**
    * An operation carries the tag of its epoch; one of the current epoch is what its descriptor is doing, and goes on
    * after a completion if and only if the descriptor's does.
    */
  predicate Tagged(slots: map<nat, Slot>, epochs: map<nat, nat>, fd: nat, kind: Kind, gen: nat, epoch: nat) {
    && kind != NoOp && gen == epoch % GENERATIONS && epoch <= EpochOf(epochs, fd)
    && (epoch == EpochOf(epochs, fd) ==> SlotOf(slots, fd).op == kind)
  }

  ghost predicate AllTagged(slots: map<nat, Slot>, epochs: map<nat, nat>, armed: seq<Armed>, cqes: seq<Cqe>) {
    && (forall fd: nat :: SlotOf(slots, fd).gen == EpochOf(epochs, fd) % GENERATIONS)
    && (forall i :: 0 <= i < |armed| ==>
          && Tagged(slots, epochs, armed[i].fd, armed[i].kind, armed[i].gen, armed[i].epoch)
          && (armed[i].epoch == EpochOf(epochs, armed[i].fd) ==>
                armed[i].multishot == SlotOf(slots, armed[i].fd).multishot))
    && (forall i :: 0 <= i < |cqes| ==>
          Tagged(slots, epochs, cqes[i].fd, cqes[i].kind, cqes[i].gen, cqes[i].epoch))
  }

  lemma TaggedPush(slots: map<nat, Slot>, epochs: map<nat, nat>, armed: seq<Armed>, cqes: seq<Cqe>, c: Cqe)
    requires AllTagged(slots, epochs, armed, cqes) && Tagged(slots, epochs, c.fd, c.kind, c.gen, c.epoch)
    ensures AllTagged(slots, epochs, armed, cqes + [c])
  {
    hide Tagged;
  }

  lemma TaggedFewer(slots: map<nat, Slot>, epochs: map<nat, nat>, armed: seq<Armed>, cqes: seq<Cqe>, more: seq<Cqe>)
    requires AllTagged(slots, epochs, armed, cqes + more)
    ensures AllTagged(slots, epochs, armed, cqes)
    ensures |more| == 1 ==>
      var c := more[0];
      && Tagged(slots, epochs, c.fd, c.kind, c.gen, c.epoch)
      && SlotOf(slots, c.fd).gen == EpochOf(epochs, c.fd) % GENERATIONS
  {
    hide Tagged;
    assert forall i :: 0 <= i < |cqes| ==> (cqes + more)[i] == cqes[i];
    if |more| == 1 { assert (cqes + more)[|cqes|] == more[0]; }
  }

  /** What a callback in progress is for: a stream that goes on is still multishot while its operation is present. */
  predicate RestFits(rest: Rest, slots: map<nat, Slot>, epochs: map<nat, nat>) {
    match rest
    case Nothing => true
    case AfterRecv(c, single) =>
      c.kind == Recv && (!single && c.epoch == EpochOf(epochs, c.fd) ==> SlotOf(slots, c.fd).multishot)
    case AfterData(c) => c.kind == RecvFrom
    case AfterError(c) => c.kind == RecvFrom
  }

  lemma RestBump(rest: Rest, slots: map<nat, Slot>, epochs: map<nat, nat>, fd: nat, s: Slot)
    requires RestFits(rest, slots, epochs)
    requires rest != Nothing ==> rest.c.epoch <= EpochOf(epochs, rest.c.fd)
    ensures RestFits(rest, slots[fd := s], epochs[fd := EpochOf(epochs, fd) + 1])
  {}

  lemma RestTouch(rest: Rest, slots: map<nat, Slot>, epochs: map<nat, nat>, fd: nat, s: Slot)
    requires RestFits(rest, slots, epochs)
    requires rest != Nothing ==>
      Tagged(slots, epochs, rest.c.fd, rest.c.kind, rest.c.gen, rest.c.epoch)
    requires SlotOf(slots, fd).op == NoOp || s.multishot == SlotOf(slots, fd).multishot
    ensures RestFits(rest, slots[fd := s], epochs)
  {}

  /** (r_gen + 1) & UD_GEN_MASK. */
  function NextGen(gen: nat): (g: nat) {
    (gen + 1) % GENERATIONS
  }

  /** A bump makes every operation of the descriptor an old one. */
  lemma BumpKeeps(slots: map<nat, Slot>, epochs: map<nat, nat>, armed: seq<Armed>, cqes: seq<Cqe>, fd: nat, s: Slot)
    requires AllTagged(slots, epochs, armed, cqes) && s.gen == NextGen(SlotOf(slots, fd).gen)
    ensures AllTagged(slots[fd := s], epochs[fd := EpochOf(epochs, fd) + 1], armed, cqes)
  {
    var slots', epochs' := slots[fd := s], epochs[fd := EpochOf(epochs, fd) + 1];
    NextTag(EpochOf(epochs, fd));
    forall f: nat ensures SlotOf(slots', f).gen == EpochOf(epochs', f) % GENERATIONS {
      if f != fd { assert SlotOf(slots, f).gen == EpochOf(epochs, f) % GENERATIONS; }
    }
  }

  lemma NextTag(e: nat)
    ensures NextGen(e % GENERATIONS) == (e + 1) % GENERATIONS
  {}

  /** Changes that keep operation and generation, or start from no operation, keep the tags. */
  lemma TouchKeeps(slots: map<nat, Slot>, epochs: map<nat, nat>, armed: seq<Armed>, cqes: seq<Cqe>, fd: nat, s: Slot)
    requires AllTagged(slots, epochs, armed, cqes) && s.gen == SlotOf(slots, fd).gen
    requires
      || SlotOf(slots, fd).op == NoOp
      || (s.op == SlotOf(slots, fd).op && s.multishot == SlotOf(slots, fd).multishot)
    ensures AllTagged(slots[fd := s], epochs, armed, cqes)
  {
    forall f: nat ensures SlotOf(slots[fd := s], f).gen == EpochOf(epochs, f) % GENERATIONS {
      assert SlotOf(slots, f).gen == EpochOf(epochs, f) % GENERATIONS;
    }
  }

  /** A completion of the present tag, taken within a round of generations, belongs to the present operation. */
  lemma PresentTag(slots: map<nat, Slot>, epochs: map<nat, nat>, c: Cqe)
    requires SlotOf(slots, c.fd).gen == EpochOf(epochs, c.fd) % GENERATIONS
    requires Tagged(slots, epochs, c.fd, c.kind, c.gen, c.epoch) && EpochOf(epochs, c.fd) - c.epoch < GENERATIONS
    ensures c.gen == SlotOf(slots, c.fd).gen <==> c.epoch == EpochOf(epochs, c.fd)
    ensures c.gen == SlotOf(slots, c.fd).gen ==> SlotOf(slots, c.fd).op == c.kind
  {
    TagMatches(c.epoch, EpochOf(epochs, c.fd));
  }

  class Receiver {
    const nbufs: nat
    var slots: map<nat, Slot>
    /** The provided buffers the kernel may take, oldest first. */
    var free: seq<int>
    var armed: seq<Armed>
    var cqes: seq<Cqe>
    var rest: Rest
    var log: seq<Delivery>
    /** How often each descriptor's generation has been bumped. */
    var epochs: map<nat, nat>
    /** The number of completions posted. */
    var count: nat
    ghost var h: History

    /** The tags are right and the buffers are all there. */
    ghost predicate Core()
      reads this`slots, this`epochs, this`armed, this`cqes, this`rest, this`free
    {
      && AllTagged(slots, epochs, armed, cqes + Kept(rest)) && RestFits(rest, slots, epochs)
      && Conserved(free, Held(cqes), InUse(rest), nbufs)
      && (forall i :: 0 <= i < |cqes| && cqes[i].res == -ENOBUFS ==> cqes[i].bid < 0)
    }

    /** The callbacks are right, with the completions `taken` in the program's hands. */
    ghost predicate Books(taken: seq<Cqe>)
      reads this`cqes, this`log, this`h, this`count
    {
      && Numbered(h.posted) && count == |h.posted| && Accounted(h, cqes + taken, log)
      && AllTold(log) && AllSilent(h.silent)
    }

    ghost predicate Valid()
      reads this
    {
      Core() && Books([])
    }

    constructor (nbufs: nat)
      ensures Valid() && this.nbufs == nbufs && log == [] && armed == [] && cqes == [] && h == History([], [])
      ensures slots == map[] && epochs == map[] && rest == Nothing && free == AllBuffers(nbufs)
    {
      this.nbufs := nbufs;
      slots, free, armed, cqes, rest, log, epochs := map[], AllBuffers(nbufs), [], [], Nothing, [], map[];
      count, h := 0, History([], []);
      new;
      assert free + Held(cqes) + InUse(rest) == free;
      NothingYet();
    }

    /** The ring, the completions and the buffer in a callback's hands always make up all the buffers, each once. */
    lemma BuffersConserved()
      requires Valid()
      ensures |free| + |Held(cqes)| + |InUse(rest)| == nbufs
      ensures forall b :: 0 <= b < nbufs ==> multiset(free + Held(cqes) + InUse(rest))[b] == 1
    {
      hide AllTagged, Accounted, AllTold, AllSilent, RestFits;
      assert |multiset(free + Held(cqes) + InUse(rest))| == |AllBuffers(nbufs)|;
      forall b | 0 <= b < nbufs ensures multiset(AllBuffers(nbufs))[b] == 1 { EachOnce(nbufs, b); }
    }

    // ----- small steps -----

    /** What a bump leaves: a new record under the next tag, and every other descriptor as it was. */
    ghost predicate Bumped(slots0: map<nat, Slot>, epochs0: map<nat, nat>, fd: nat, op: Kind, multishot: bool,
                           enobufs: nat)
      reads this`slots, this`epochs
    {
      && slots == slots0[fd := Slot(op, NextGen(SlotOf(slots0, fd).gen), multishot, enobufs)]
      && epochs == epochs0[fd := EpochOf(epochs0, fd) + 1]
    }

    /** A bump after which the kernel holds one operation more, under the new tag. */
    ghost predicate Restarted(slots0: map<nat, Slot>, epochs0: map<nat, nat>, armed0: seq<Armed>, fd: nat,
                              op: Kind, multishot: bool, enobufs: nat)
      reads this`slots, this`epochs, this`armed
    {
      && Bumped(slots0, epochs0, fd, op, multishot, enobufs)
      && armed == armed0 + [Armed(fd, op, NextGen(SlotOf(slots0, fd).gen), EpochOf(epochs0, fd) + 1, multishot)]
    }

    ghost predicate Same(slots0: map<nat, Slot>, epochs0: map<nat, nat>, armed0: seq<Armed>)
      reads this`slots, this`epochs, this`armed
    {
      slots == slots0 && epochs == epochs0 && armed == armed0
    }

    /** A new record for a descriptor, its generation bumped. */
    method Bump(fd: nat, op: Kind, multishot: bool, enobufs: nat)
      requires Core()
      modifies this`slots, this`epochs
      ensures Core() && Bumped(old(slots), old(epochs), fd, op, multishot, enobufs)
    {
      hide AllTagged, Held, AllBuffers, Conserved, RestFits, Tagged;
      var s := Slot(op, NextGen(SlotOf(slots, fd).gen), multishot, enobufs);
      TaggedFewer(slots, epochs, armed, cqes, Kept(rest));
      TaggedEpoch(slots, epochs, rest);
      BumpKeeps(slots, epochs, armed, cqes + Kept(rest), fd, s);
      RestBump(rest, slots, epochs, fd, s);
      slots, epochs := slots[fd := s], epochs[fd := EpochOf(epochs, fd) + 1];
    }

    /** A change to a record that keeps its operation and tag, or starts one from none. */
    method Touch(fd: nat, s: Slot)
      requires Core() && s.gen == SlotOf(slots, fd).gen
      requires
        || SlotOf(slots, fd).op == NoOp
        || (s.op == SlotOf(slots, fd).op && s.multishot == SlotOf(slots, fd).multishot)
      modifies this`slots
      ensures Core() && slots == old(slots)[fd := s]
    {
      hide AllTagged, Held, AllBuffers, Conserved, RestFits, Tagged;
      TaggedFewer(slots, epochs, armed, cqes, Kept(rest));
      TouchKeeps(slots, epochs, armed, cqes + Kept(rest), fd, s);
      RestTouch(rest, slots, epochs, fd, s);
      slots := slots[fd := s];
    }

    /** Handing the kernel an operation under the present tag. */
    method Arm(fd: nat, kind: Kind, multishot: bool)
      requires Core() && kind != NoOp && SlotOf(slots, fd).op == kind && SlotOf(slots, fd).multishot == multishot
      modifies this`armed
      ensures Core() && armed == old(armed) + [Armed(fd, kind, SlotOf(slots, fd).gen, EpochOf(epochs, fd), multishot)]
    {
      hide Held, AllBuffers, Conserved, RestFits;
      assert SlotOf(slots, fd).gen == EpochOf(epochs, fd) % GENERATIONS;
      armed := armed + [Armed(fd, kind, SlotOf(slots, fd).gen, EpochOf(epochs, fd), multishot)];
    }

    /** uaio_rearm_recv and uaio_arm_recvfrom. */
    method Rearm(fd: nat, sqe: bool) returns (ok: bool)
      requires Core() && SlotOf(slots, fd).op != NoOp
      modifies this`slots, this`epochs, this`armed
      ensures Core() && ok == sqe
      ensures
        var s := old(SlotOf(slots, fd));
        if sqe then Restarted(old(slots), old(epochs), old(armed), fd, s.op, s.multishot, s.enobufs)
        else Same(old(slots), old(epochs), old(armed))
    {
      hide Core, NextGen;
      ok := sqe;
      if sqe {
        var s := SlotOf(slots, fd);
        Bump(fd, s.op, s.multishot, s.enobufs);
        Arm(fd, s.op, s.multishot);
      }
    }

    // ----- calls -----

    /** dyn_aio_recv. */
    method CallRecv(fd: nat, multishot: bool, sqe: bool) returns (ok: bool)
      requires Valid()
      modifies this`slots, this`epochs, this`armed
      ensures Valid() && (ok <==> fd < 0x10_0000 && sqe)
      ensures
        if ok then Restarted(old(slots), old(epochs), old(armed), fd, Recv, multishot, 0)
        else if fd < 0x10_0000 then Bumped(old(slots), old(epochs), fd, NoOp, false, 0) && armed == old(armed)
        else Same(old(slots), old(epochs), old(armed))
    {
      hide Core, Books, NextGen;
      if fd >= 0x10_0000 {
        return false;
      }
      if !sqe {
        Bump(fd, NoOp, false, 0);
        return false;
      }
      Bump(fd, Recv, multishot, 0);
      Arm(fd, Recv, multishot);
      ok := true;
    }

    /** dyn_aio_recvfrom. */
    method CallRecvFrom(fd: nat, sqe: bool) returns (ok: bool)
      requires Valid()
      modifies this`slots, this`epochs, this`armed
      ensures Valid()
      ensures
        var s := old(SlotOf(slots, fd));
        ok <==> fd < 0x10_0000 && (s.op == RecvFrom || (s.op == NoOp && sqe))
      ensures
        var s := old(SlotOf(slots, fd));
        if fd >= 0x10_0000 || s.op != NoOp then Same(old(slots), old(epochs), old(armed))
        else if ok then Restarted(old(slots), old(epochs), old(armed), fd, RecvFrom, true, s.enobufs)
        else EpochOf(epochs, fd) == old(EpochOf(epochs, fd)) + 1 && SlotOf(slots, fd).op == NoOp && armed == old(armed)
    {
      hide Core, Books, NextGen;
      var s := SlotOf(slots, fd);
      if fd >= 0x10_0000 {
        return false;
      }
      if s.op == RecvFrom {
        return true;
      }
      if s.op != NoOp {
        return false;
      }
      Touch(fd, s.(op := RecvFrom, multishot := true));
      ok := Rearm(fd, sqe);
      if !ok {
        Bump(fd, NoOp, false, s.enobufs);
      }
    }

    /** The receive part of dyn_aio_close. */
    method Close(fd: nat)
      requires Valid()
      modifies this`slots, this`epochs
      ensures Valid() && Bumped(old(slots), old(epochs), fd, NoOp, false, 0)
    {
      hide Core, Books;
      Bump(fd, NoOp, false, 0);
    }

    // ----- the kernel -----

    /** An armed operation completes; it may take the next buffer, and stays armed when more is to come. */
    method Kernel(i: nat, res: int, buffer: bool, more: bool, payload: int)
      requires Valid() && i < |armed| && (more ==> armed[i].multishot) && (buffer ==> free != [] && res != -ENOBUFS)
      modifies this`armed, this`cqes, this`free, this`count, this`h
      ensures Valid()
      ensures
        var o, n := old(armed[i]), |old(h.posted)|;
        var c := Cqe(n, o.fd, o.kind, o.gen, o.epoch, res, if buffer then old(free[0]) else -1, more, payload);
        cqes == old(cqes) + [c] && h == old(h).(posted := old(h.posted) + [c])
      ensures free == if buffer then old(free[1..]) else old(free)
      ensures armed == if more then old(armed) else old(armed[..i]) + old(armed[i + 1..])
    {
      hide AllBuffers, AllTagged, Held, InUse, Conserved, RestFits, Books;
      var o := armed[i];
      var bid: int := -1;
      if buffer {
        bid := free[0];
        BuffersValid(free, Held(cqes), InUse(rest), nbufs);
        free := free[1..];
      }
      CountIs();
      var c := Cqe(count, o.fd, o.kind, o.gen, o.epoch, res, bid, more, payload);
      HeldPush(cqes, c);
      MoveBuffer(old(free), free, Held(cqes), Carried(c), InUse(rest), nbufs);
      CompletionKeeps(slots, epochs, armed, cqes, Kept(rest), i, c);
      Post(c);
      if !more {
        armed := armed[..i] + armed[i + 1..];
      }
    }

    lemma CountIs()
      requires Books([])
      ensures count == |h.posted|
    {}

    /** A completion is entered in the queue. */
    method Post(c: Cqe)
      requires Books([]) && c.serial == count
      modifies this`cqes, this`count, this`h
      ensures Books([]) && cqes == old(cqes) + [c] && h == old(h).(posted := old(h.posted) + [c])
    {
      hide Accounted, Numbered, AllTold, AllSilent;
      WithNone(cqes);
      WithNone(cqes + [c]);
      AccountedPost(h, cqes, log, c);
      cqes, count, h := cqes + [c], count + 1, h.(posted := h.posted + [c]);
    }

    // ----- completions -----

    /** A callback, with the bump count of its descriptor when the completion was taken. */
    method Deliver(c: Cqe, now: nat, result: int)
      requires Books([c]) && c.epoch == now && Told(c, result)
      modifies this`log
      ensures Books([]) && log == old(log) + [Delivery(c, now, result)]
    {
      hide Accounted, Numbered, AllSilent, Told;
      AccountedCall(h, cqes, log, Delivery(c, now, result));
      WithNone(cqes);
      log := log + [Delivery(c, now, result)];
    }

    /** The end of a completion without a callback. */
    ghost method Silently(c: Cqe, now: nat)
      requires Books([c]) && (c.epoch < now || c.res == -ENOBUFS)
      modifies this`h
      ensures Books([]) && h == old(h).(silent := old(h.silent) + [Silence(c, now)])
    {
      hide Accounted, Numbered, AllTold;
      AccountedSilence(h, cqes, log, Silence(c, now));
      WithNone(cqes);
      h := h.(silent := h.silent + [Silence(c, now)]);
    }

    /** uaio_recycle of what a completion carries. */
    method Recycle(bid: int, ghost used: seq<int>)
      requires used == if bid >= 0 then [bid] else []
      modifies this`free
      ensures free == old(free) + used
    {
      if bid >= 0 {
        free := free + [bid];
      }
    }

    /**
      * The recv and recvfrom parts of uaio_dispatch, up to the callback. If the operation is no more than a round of
      * generations old, a completion from before a close or a re-arm is dropped, and only such a one; its buffer goes
      * back to the ring.
      */
    method Dispatch(sqe: bool)
      requires Valid() && rest == Nothing && cqes != [] && EpochOf(epochs, cqes[0].fd) - cqes[0].epoch < GENERATIONS
      modifies this
      ensures Valid() && cqes == old(cqes[1..]) && h.posted == old(h.posted)
      ensures old(cqes[0].epoch < EpochOf(epochs, cqes[0].fd)) ==>
        && rest == Nothing && log == old(log) && free == old(free) + Carried(old(cqes[0]))
        && Same(old(slots), old(epochs), old(armed))
      ensures old(cqes[0].epoch == EpochOf(epochs, cqes[0].fd)) ==>
        var c, s := old(cqes[0]), old(SlotOf(slots, cqes[0].fd));
        if c.res == -ENOBUFS && s.enobufs < nbufs then
          && log == old(log) && rest == Nothing && free == old(free)
          && (sqe ==> Restarted(old(slots), old(epochs), old(armed), c.fd, s.op, s.multishot, s.enobufs + 1))
          && (!sqe ==> Same(old(slots)[c.fd := s.(enobufs := s.enobufs + 1)], old(epochs), old(armed)))
        else if c.res > 0 && c.bid >= 0 then
          && free == old(free) && armed == old(armed)
          && (c.kind == Recv && !s.multishot ==> EpochOf(epochs, c.fd) == c.epoch + 1 && SlotOf(slots, c.fd).op == NoOp)
          && (c.kind == RecvFrom || s.multishot ==>
                slots == old(slots)[c.fd := s.(enobufs := 0)] && epochs == old(epochs))
          && (c.kind == Recv ==> log == old(log) + [Delivery(c, c.epoch, c.res)] && rest == AfterRecv(c, !s.multishot))
          && (c.kind == RecvFrom && c.payload >= 0 ==> log == old(log) + [Delivery(c, c.epoch, c.payload)])
          && (c.kind == RecvFrom && c.payload < 0 ==> log == old(log) + [Delivery(c, c.epoch, -EPROTO)])
          && (c.kind == RecvFrom ==> rest == AfterData(c))
        else
          && free == old(free) + Carried(c) && armed == old(armed)
          && (c.kind == Recv ==> EpochOf(epochs, c.fd) == c.epoch + 1 && SlotOf(slots, c.fd).op == NoOp)
          && (c.kind == RecvFrom ==> epochs == old(epochs) && SlotOf(slots, c.fd).op == RecvFrom)
          && (c.kind == Recv ==>
                log == old(log) + [Delivery(c, c.epoch, if c.res < 0 then c.res else 0)] && rest == Nothing)
          && (c.kind == RecvFrom ==>
                log == old(log) + [Delivery(c, c.epoch, if c.res < 0 then c.res else -EIO)] && rest == AfterError(c))
    {
      hide AllTagged, Held, AllBuffers, Conserved, Tagged, RestFits, Accounted, Numbered, AllTold, AllSilent;
      var c := cqes[0];
      var s, now := SlotOf(slots, c.fd), EpochOf(epochs, c.fd);
      WithNone(cqes);
      TagsOfFirst(slots, epochs, armed, cqes);
      PresentTag(slots, epochs, c);
      HeldFirst(cqes);
      TakeBuffer(free, Held(cqes[1..]), Carried(c), nbufs);
      AccountedTake(h, cqes, log);
      WithNone(cqes[1..]);
      cqes := cqes[1..];
      if c.gen != s.gen {
        Recycle(c.bid, Carried(c));
        Silently(c, now);
        return;
      }
      if c.res == -ENOBUFS {
        assert free + [] == free;
        OutOfBuffers(c, now, sqe);
      } else if c.res > 0 && c.bid >= 0 {
        TaggedPush(slots, epochs, armed, cqes, c);
        rest := if c.kind == Recv then AfterRecv(c, !s.multishot) else AfterData(c);
        RestStarts(rest, slots, epochs);
        Data(c, now);
      } else {
        Recycle(c.bid, Carried(c));
        Ended(c, now);
      }
    }

    /** No buffer was left: the operation is armed again, as often as there are buffers, then given up. */
    method OutOfBuffers(c: Cqe, now: nat, sqe: bool)
      requires Core() && Books([c]) && rest == Nothing && c.res == -ENOBUFS && c.bid < 0
      requires c.epoch == now == EpochOf(epochs, c.fd) && Tagged(slots, epochs, c.fd, c.kind, c.gen, c.epoch)
      modifies this`slots, this`epochs, this`armed, this`rest, this`log, this`h
      ensures Valid() && h.posted == old(h.posted)
      ensures
        var s := old(SlotOf(slots, c.fd));
        if s.enobufs >= nbufs then
          && log == old(log) + [Delivery(c, now, -ENOBUFS)] && armed == old(armed)
          && rest == (if c.kind == Recv then Nothing else AfterError(c))
          && (c.kind == Recv ==> EpochOf(epochs, c.fd) == now + 1 && SlotOf(slots, c.fd).op == NoOp)
          && (c.kind == RecvFrom ==> slots == old(slots)[c.fd := s.(enobufs := 0)] && epochs == old(epochs))
        else
          && log == old(log) && rest == Nothing
          && (sqe ==> Restarted(old(slots), old(epochs), old(armed), c.fd, s.op, s.multishot, s.enobufs + 1))
          && (!sqe ==> Same(old(slots)[c.fd := s.(enobufs := s.enobufs + 1)], old(epochs), old(armed)))
    {
      hide Core, Books, NextGen;
      var s := SlotOf(slots, c.fd);
      var again := s.enobufs < nbufs;
      Touch(c.fd, s.(enobufs := if again then s.enobufs + 1 else 0));
      if again {
        var ok := Rearm(c.fd, sqe);
        Silently(c, now);
      } else if c.kind == Recv {
        Bump(c.fd, NoOp, s.multishot, 0);
        Deliver(c, now, -ENOBUFS);
      } else {
        Deliver(c, now, -ENOBUFS);
        Failed(c);
      }
    }

    /** The callback of a datagram socket that failed is in progress. */
    method Failed(c: Cqe)
      requires Core() && rest == Nothing && c.kind == RecvFrom && Tagged(slots, epochs, c.fd, c.kind, c.gen, c.epoch)
      modifies this`rest
      ensures Core() && rest == AfterError(c)
    {
      hide AllTagged, Held, AllBuffers, Conserved, Tagged;
      WithNone(cqes);
      TaggedPush(slots, epochs, armed, cqes, c);
      rest := AfterError(c);
    }

    /** Data arrived in a buffer, which stays in the callback's hands. */
    method Data(c: Cqe, now: nat)
      requires Core() && Books([c]) && c.kind != NoOp && SlotOf(slots, c.fd).op == c.kind && c.res > 0 && c.bid >= 0
      requires c.epoch == now
      modifies this`slots, this`epochs, this`log
      ensures Valid()
      ensures c.kind == Recv ==> log == old(log) + [Delivery(c, now, c.res)]
      ensures c.kind == RecvFrom && c.payload >= 0 ==> log == old(log) + [Delivery(c, now, c.payload)]
      ensures c.kind == RecvFrom && c.payload < 0 ==> log == old(log) + [Delivery(c, now, -EPROTO)]
      ensures
        var s := old(SlotOf(slots, c.fd));
        if c.kind == Recv && !s.multishot then
          EpochOf(epochs, c.fd) == old(EpochOf(epochs, c.fd)) + 1 && SlotOf(slots, c.fd).op == NoOp
        else slots == old(slots)[c.fd := s.(enobufs := 0)] && epochs == old(epochs)
    {
      hide Core, Books, NextGen;
      var s := SlotOf(slots, c.fd);
      Touch(c.fd, s.(enobufs := 0));
      if c.kind == Recv && !s.multishot {
        Bump(c.fd, NoOp, false, 0);
      }
      Deliver(c, now, if c.kind == Recv then c.res else if c.payload >= 0 then c.payload else -EPROTO);
    }

    /** End of stream or an error. */
    method Ended(c: Cqe, now: nat)
      requires Core() && Books([c]) && rest == Nothing && c.res != -ENOBUFS && (c.res <= 0 || c.bid < 0)
      requires c.epoch == now == EpochOf(epochs, c.fd) && Tagged(slots, epochs, c.fd, c.kind, c.gen, c.epoch)
      modifies this`slots, this`epochs, this`rest, this`log
      ensures Valid()
      ensures c.kind == Recv ==>
        && log == old(log) + [Delivery(c, now, if c.res < 0 then c.res else 0)] && rest == Nothing
        && EpochOf(epochs, c.fd) == old(EpochOf(epochs, c.fd)) + 1 && SlotOf(slots, c.fd).op == NoOp
      ensures c.kind == RecvFrom ==>
        && log == old(log) + [Delivery(c, now, if c.res < 0 then c.res else -EIO)]
        && rest == AfterError(c) && slots == old(slots) && epochs == old(epochs)
    {
      hide Core, Books, NextGen;
      if c.kind == Recv {
        var s := SlotOf(slots, c.fd);
        Bump(c.fd, NoOp, s.multishot, s.enobufs);
        Deliver(c, now, if c.res <= 0 then c.res else 0);
      } else {
        Deliver(c, now, if c.res < 0 then c.res else -EIO);
        Failed(c);
      }
    }

    /**
      * What uaio_dispatch does once a callback has returned; in between anything may have been called. The buffer goes
      * back to the ring. Within a round of generations a descriptor is armed again, or after an error disarmed, if and
      * only if it is still at the operation the completion was for.
      */
    method After(sqe: bool)
      requires Valid()
      modifies this`free, this`rest, this`slots, this`epochs, this`armed
      ensures Valid() && rest == Nothing && free == old(free) + old(InUse(rest))
      ensures old(rest) == Nothing ==> Same(old(slots), old(epochs), old(armed))
      ensures old(rest) != Nothing && old(EpochOf(epochs, rest.c.fd)) - old(rest.c.epoch) < GENERATIONS ==>
        var c, s := old(rest.c), old(SlotOf(slots, rest.c.fd));
        if c.epoch != old(EpochOf(epochs, rest.c.fd)) then Same(old(slots), old(epochs), old(armed))
        else if old(rest.AfterError?) then
          Bumped(old(slots), old(epochs), c.fd, NoOp, false, s.enobufs) && armed == old(armed)
        else if sqe && !c.more && !old(rest.AfterRecv? && rest.single) then
          Restarted(old(slots), old(epochs), old(armed), c.fd, c.kind, s.multishot, s.enobufs)
        else Same(old(slots), old(epochs), old(armed))
      ensures old(rest) != Nothing ==>
        var c, s := old(rest.c), old(SlotOf(slots, rest.c.fd));
        s.op != c.kind || s.gen != c.gen ==> Same(old(slots), old(epochs), old(armed))
    {
      hide AllTagged, Held, AllBuffers, Conserved, Tagged, NextGen, Books;
      GiveBack(free, Held(cqes), InUse(rest), nbufs);
      TaggedFewer(slots, epochs, armed, cqes, Kept(rest));
      TaggedEpoch(slots, epochs, rest);
      var was := rest;
      if was != Nothing && EpochOf(epochs, was.c.fd) - was.c.epoch < GENERATIONS { PresentTag(slots, epochs, was.c); }
      assert free + [] == free;
      WithNone(cqes);
      if was.AfterRecv? || was.AfterData? {
        Recycle(was.c.bid, Carried(was.c));
      }
      rest := Nothing;
      match was {
        case Nothing =>
        case AfterRecv(c, single) =>
          var s := SlotOf(slots, c.fd);
          if !single && s.op == Recv && s.gen == c.gen && s.multishot && !c.more {
            var ok := Rearm(c.fd, sqe);
          }
        case AfterData(c) =>
          var s := SlotOf(slots, c.fd);
          if !c.more && s.op == RecvFrom && s.gen == c.gen {
            var ok := Rearm(c.fd, sqe);
          }
        case AfterError(c) =>
          var s := SlotOf(slots, c.fd);
          if s.op == RecvFrom && s.gen == c.gen {
            Bump(c.fd, NoOp, false, s.enobufs);
          }
      }
    }

    // ----- whole runs -----

    /** One thing that can happen; whatever can happen does. */
    method Happen(e: Event)
      requires Valid()
      modifies this
      ensures Valid() && old(h.posted) <= h.posted && old(log) <= log
      ensures e.Arms? && e.fd < 0x10_0000 ==> EpochOf(epochs, e.fd) == old(EpochOf(epochs, e.fd)) + 1
      ensures e.ArmsFrom? && e.fd < 0x10_0000 && old(SlotOf(slots, e.fd).op) == NoOp ==>
        EpochOf(epochs, e.fd) == old(EpochOf(epochs, e.fd)) + 1
      ensures e.Closes? ==> EpochOf(epochs, e.fd) == old(EpochOf(epochs, e.fd)) + 1
      ensures
        && e.Completes? && e.i < |old(armed)| && (e.more ==> old(armed[e.i].multishot))
        && (e.buffer ==> old(free) != [] && e.res != -ENOBUFS) ==>
          |h.posted| == |old(h.posted)| + 1 && h.posted[|old(h.posted)|].res == e.res
      ensures
        && e.Reaps? && old(rest) == Nothing && old(cqes) != []
        && old(EpochOf(epochs, cqes[0].fd)) - old(cqes[0].epoch) < GENERATIONS ==>
          cqes == old(cqes[1..])
      ensures e.Returns? ==> rest == Nothing
    {
      hide Core, Books, Told, NextGen;
      match e {
        case Arms(fd, multishot, sqe) => var ok := CallRecv(fd, multishot, sqe);
        case ArmsFrom(fd, sqe) => var ok := CallRecvFrom(fd, sqe);
        case Closes(fd) => Close(fd);
        case Completes(i, res, buffer, more, payload) =>
          if i < |armed| && (more ==> armed[i].multishot) && (buffer ==> free != [] && res != -ENOBUFS) {
            Kernel(i, res, buffer, more, payload);
          }
        case Reaps(sqe) =>
          if rest == Nothing && cqes != [] && EpochOf(epochs, cqes[0].fd) - cqes[0].epoch < GENERATIONS {
            FirstEpoch();
            Dispatch(sqe);
          }
        case Returns(sqe) => After(sqe);
      }
    }

    lemma FirstEpoch()
      requires Valid() && cqes != []
      ensures cqes[0].epoch <= EpochOf(epochs, cqes[0].fd) && cqes[0].kind != NoOp
    {
      TagsOfFirst(slots, epochs, armed, cqes + Kept(rest));
    }

    /** A stream for which there is never a buffer is armed again as often as there are buffers, and then gives up. */
    method Starve(fd: nat)
      requires Valid() && rest == Nothing && cqes == [] && |armed| == 1 && armed[0].fd == fd && armed[0].kind == Recv
      requires armed[0].epoch == EpochOf(epochs, fd) && SlotOf(slots, fd).enobufs == 0
      modifies this
      ensures Valid() && |log| == |old(log)| + 1 && log[|old(log)|].result == -ENOBUFS && armed == []
      ensures |h.posted| == |old(h.posted)| + nbufs + 1 && SlotOf(slots, fd).op == NoOp
    {
      hide Core, Books, NextGen, Told;
      ArmedOps();
      var i := 0;
      while i < nbufs
        invariant 0 <= i <= nbufs && Valid() && rest == Nothing && cqes == [] && |armed| == 1 && log == old(log)
        invariant armed[0].fd == fd && armed[0].kind == Recv == SlotOf(slots, fd).op
        invariant armed[0].epoch == EpochOf(epochs, fd)
        invariant SlotOf(slots, fd).enobufs == i && |h.posted| == |old(h.posted)| + i
      {
        Kernel(0, -ENOBUFS, false, false, 0);
        Dispatch(true);
        i := i + 1;
      }
      Kernel(0, -ENOBUFS, false, false, 0);
      Dispatch(true);
    }

    lemma ArmedOps()
      requires Valid()
      ensures forall i :: 0 <= i < |armed| && armed[i].epoch == EpochOf(epochs, armed[i].fd) ==>
        SlotOf(slots, armed[i].fd).op == armed[i].kind
    {
      hide Books;
    }

    /** Every callback belongs to one completion the kernel has posted, which has no other and waits no more. */
    lemma OneCallback(i: nat)
      requires Valid() && i < |log|
      ensures log[i].c.serial < |h.posted| && h.posted[log[i].c.serial] == log[i].c && log[i].c !in cqes
      ensures forall j :: 0 <= j < |log| && j != i ==> log[j].c != log[i].c
    {
      hide AllTagged, Held, AllBuffers, Conserved, Accounted, Numbered;
      WithNone(cqes);
      OnePlace(h, cqes, log, i);
    }

    /**
      * Every run in which no operation outlives a round of generations: callbacks are made only for the operation
      * their descriptor is doing, each for one completion of its own, and report what that completion brought. No
      * completion is lost: it waits, has had its callback, is of an earlier operation or found no buffer. No buffer is
      * lost or handed out twice.
      */
    method Run(events: seq<Event>)
      requires Valid()
      modifies this
      ensures Valid() && old(h.posted) <= h.posted
      ensures forall i :: 0 <= i < |log| ==>
        var c, result := log[i].c, log[i].result;
        && c.epoch == log[i].now && c.serial < |h.posted| && h.posted[c.serial] == c && c !in cqes
        && (forall j :: 0 <= j < |log| && j != i ==> log[j].c != c)
        && (c.res > 0 && c.bid >= 0 ==>
              result == if c.kind == Recv then c.res else if c.payload >= 0 then c.payload else -EPROTO)
        && (c.res < 0 ==> result == c.res)
        && (c.res >= 0 && (c.res == 0 || c.bid < 0) ==> result == if c.kind == Recv then 0 else -EIO)
      ensures multiset(h.posted) == multiset(cqes) + multiset(Called(log)) + multiset(Silenced(h.silent))
      ensures forall i :: 0 <= i < |h.silent| ==> h.silent[i].c.epoch < h.silent[i].now || h.silent[i].c.res == -ENOBUFS
      ensures |free| + |Held(cqes)| + |InUse(rest)| == nbufs
    {
      hide Core, Books, Told, Held, InUse;
      var i := 0;
      while i < |events|
        invariant 0 <= i <= |events| && Valid() && old(h.posted) <= h.posted
      {
        Happen(events[i]);
        i := i + 1;
      }
      BuffersConserved();
      BooksMean();
      forall i | 0 <= i < |log| ensures
        var c := log[i].c;
        && c.epoch == log[i].now && c.serial < |h.posted| && h.posted[c.serial] == c && c !in cqes
        && (forall j :: 0 <= j < |log| && j != i ==> log[j].c != c) && Told(c, log[i].result)
      {
        OneCallback(i);
      }
      forall i | 0 <= i < |log| ensures
        var c, result := log[i].c, log[i].result;
        && (c.res > 0 && c.bid >= 0 ==>
              result == if c.kind == Recv then c.res else if c.payload >= 0 then c.payload else -EPROTO)
        && (c.res < 0 ==> result == c.res)
        && (c.res >= 0 && (c.res == 0 || c.bid < 0) ==> result == if c.kind == Recv then 0 else -EIO)
      {
        ToldMeans(log[i].c, log[i].result);
      }
    }

    lemma BooksMean()
      requires Valid()
      ensures forall i :: 0 <= i < |log| ==> log[i].c.epoch == log[i].now && Told(log[i].c, log[i].result)
      ensures multiset(h.posted) == multiset(cqes) + multiset(Called(log)) + multiset(Silenced(h.silent))
      ensures forall i :: 0 <= i < |h.silent| ==> h.silent[i].c.epoch < h.silent[i].now || h.silent[i].c.res == -ENOBUFS
    {
      hide AllTagged, Held, AllBuffers, Conserved, Told;
      WithNone(cqes);
    }
  }

  lemma ToldMeans(c: Cqe, result: int)
    requires Told(c, result)
    ensures c.res > 0 && c.bid >= 0 ==>
      result == if c.kind == Recv then c.res else if c.payload >= 0 then c.payload else -EPROTO
    ensures c.res < 0 ==> result == c.res
    ensures c.res >= 0 && (c.res == 0 || c.bid < 0) ==> result == if c.kind == Recv then 0 else -EIO
  {}

  /** A datagram of 12 bytes in a completion of 40: the header counts in the completion but not in what is reported. */
  method Datagram() returns (w: Receiver)
    ensures w.Valid() && |w.log| == 1 && w.log[0].c.res == 40 && w.log[0].result == 12
  {
    hide Receiver.Core, Receiver.Books, NextGen;
    assert AllBuffers(1)[0] == 0;
    w := new Receiver(1);
    var ok := w.CallRecvFrom(3, true);
    assert w.armed == [Armed(3, RecvFrom, NextGen(0), 1, true)];
    w.Kernel(0, 40, true, true, 12);
    w.Dispatch(true);
  }

  datatype Event =
    | Arms(fd: nat, multishot: bool, sqe: bool)
    | ArmsFrom(fd: nat, sqe: bool)
    | Closes(fd: nat)
    | Completes(i: nat, res: int, buffer: bool, more: bool, payload: int)
    | Reaps(sqe: bool)
    | Returns(sqe: bool)

  lemma TagsOfFirst(slots: map<nat, Slot>, epochs: map<nat, nat>, armed: seq<Armed>, cqes: seq<Cqe>)
    requires AllTagged(slots, epochs, armed, cqes) && cqes != []
    ensures
      var c := cqes[0];
      && SlotOf(slots, c.fd).gen == EpochOf(epochs, c.fd) % GENERATIONS
      && Tagged(slots, epochs, c.fd, c.kind, c.gen, c.epoch) && c.epoch <= EpochOf(epochs, c.fd) && c.kind != NoOp
    ensures AllTagged(slots, epochs, armed, cqes[1..])
  {}

  lemma WithNone(cqes: seq<Cqe>)
    ensures cqes + [] == cqes
  {}

  lemma TaggedEpoch(slots: map<nat, Slot>, epochs: map<nat, nat>, rest: Rest)
    requires rest != Nothing ==> Tagged(slots, epochs, rest.c.fd, rest.c.kind, rest.c.gen, rest.c.epoch)
    ensures rest != Nothing ==> rest.c.epoch <= EpochOf(epochs, rest.c.fd)
  {}

  lemma RestStarts(rest: Rest, slots: map<nat, Slot>, epochs: map<nat, nat>)
    requires !rest.AfterError? && rest != Nothing
    requires rest.AfterRecv? ==> rest.c.kind == Recv && rest.single == !SlotOf(slots, rest.c.fd).multishot
    requires rest.AfterData? ==> rest.c.kind == RecvFrom
    ensures RestFits(rest, slots, epochs)
  {}

  lemma NothingYet()
    ensures AllTagged(map[], map[], [], []) && RestFits(Nothing, map[], map[]) && Numbered([]) && AllTold([])
    ensures Accounted(History([], []), [] + [], []) && AllSilent([])
  {
    assert Called([]) == [] && Silenced([]) == [];
  }

  /** A completion inherits the tag of its operation, which may then be gone. */
  lemma CompletionKeeps(slots: map<nat, Slot>, epochs: map<nat, nat>, armed: seq<Armed>, cqes: seq<Cqe>,
                        kept: seq<Cqe>, i: nat, c: Cqe)
    requires AllTagged(slots, epochs, armed, cqes + kept) && i < |armed|
    requires c.fd == armed[i].fd && c.kind == armed[i].kind && c.gen == armed[i].gen && c.epoch == armed[i].epoch
    ensures AllTagged(slots, epochs, armed, (cqes + [c]) + kept)
    ensures AllTagged(slots, epochs, armed[..i] + armed[i + 1..], (cqes + [c]) + kept)
  {
    hide Tagged;
    var all, more := cqes + kept, (cqes + [c]) + kept;
    forall k | 0 <= k < |more| ensures Tagged(slots, epochs, more[k].fd, more[k].kind, more[k].gen, more[k].epoch) {
      if k < |cqes| { assert more[k] == all[k]; } else if k > |cqes| { assert more[k] == all[k - 1]; }
    }
  }

  lemma BuffersValid(free: seq<int>, held: seq<int>, used: seq<int>, n: nat)
    requires Conserved(free, held, used, n) && free != []
    ensures 0 <= free[0] < n
  {
    assert free[0] in multiset(free + held + used);
    assert free[0] in AllBuffers(n);
  }

  /** A buffer that leaves the ring for a completion is counted once. */
  lemma MoveBuffer(free: seq<int>, free': seq<int>, held: seq<int>, carried: seq<int>, used: seq<int>, n: nat)
    requires Conserved(free, held, used, n) && free == carried + free'
    ensures Conserved(free', held + carried, used, n)
  {
    hide AllBuffers;
  }

  /** A completion taken from the queue: its buffer goes to the callback, or back to the ring. */
  lemma TakeBuffer(free: seq<int>, held: seq<int>, carried: seq<int>, n: nat)
    requires Conserved(free, carried + held, [], n)
    ensures Conserved(free, held, carried, n) && Conserved(free + carried, held, [], n)
  {
    hide AllBuffers;
  }

  /** A buffer handed back after a callback. */
  lemma GiveBack(free: seq<int>, held: seq<int>, used: seq<int>, n: nat)
    requires Conserved(free, held, used, n)
    ensures Conserved(free + used, held, [], n)
  {
    hide AllBuffers;
  }

  lemma {:induction false} EachOnce(n: nat, b: int)
    ensures multiset(AllBuffers(n))[b] == if 0 <= b < n then 1 else 0
    decreases n
  {
    if n > 0 {
      assert AllBuffers(n) == AllBuffers(n - 1) + [n - 1];
      EachOnce(n - 1, b);
    } else {
      assert AllBuffers(n) == [];
    }
  }
}
