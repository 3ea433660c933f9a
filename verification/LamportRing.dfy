/** The Lamport single-producer/single-consumer ring of spscq.h as a state machine.
    Every load or store of `read`, `write` or a queue slot is one atomic step (sequentially
    consistent memory), and a run is an arbitrary schedule of producer and consumer steps. */
module LamportRing {
  import opened Bits
  import opened ModArith
  import opened Wrappers

  // ---------------------------------------------------------------- the machine

  /** Where the producer stands in lq_write(m): w is the loaded `write`, next its masked successor. */
  datatype ProducerPc =
    | PIdle
    | PEntered(m: nat, w: nat, next: nat)  // `write` loaded
    | PChecked(m: nat, w: nat, next: nat)  // `read` loaded, not full
    | PStored(m: nat, w: nat, next: nat)   // slot stored, not yet published

  /** Where the consumer stands in lq_read(). */
  datatype ConsumerPc =
    | CIdle
    | CEntered(r: nat)           // `read` loaded
    | CChecked(r: nat)           // `write` loaded, not empty
    | CLoaded(r: nat, m: nat)    // slot loaded, index not yet published

  /** What a call decided, recorded at the step that decides it. */
  datatype Event = Wrote(m: nat) | WriteFull(m: nat) | Read(m: nat) | ReadEmpty

  datatype Ring = Ring(qlen: nat, smap: seq<nat>, slots: seq<nat>, write: nat, read: nat,
                       p: ProducerPc, c: ConsumerPc, log: seq<Event>)

  /** One step of either thread; m is the argument if the producer is about to call lq_write. */
  datatype Move = ProducerMove(m: nat) | ConsumerMove

  /** Every index the two threads may use is inside the arrays. */
  predicate WellFormed(s: Ring) {
    && 2 <= s.qlen == |s.smap| == |s.slots|
    && (forall i | 0 <= i < s.qlen :: s.smap[i] < s.qlen)
    && s.write < s.qlen && s.read < s.qlen
    && (!s.p.PIdle? ==> s.p.w < s.qlen && s.p.next < s.qlen)
    && (!s.c.CIdle? ==> s.c.r < s.qlen)
  }

  /** (i + 1) & qmask, where blq_init sets qmask to qlen - 1. */
  function Advance(i: nat, qlen: nat): (r: nat)
    requires qlen > 0
    ensures r < qlen
  {
    And(i + 1, qlen - 1)
  }

  function ProducerStep(s: Ring, m: nat): (t: Ring)
    requires WellFormed(s)
    ensures WellFormed(t) && t.qlen == s.qlen && t.smap == s.smap
  {
    match s.p
    case PIdle => s.(p := PEntered(m, s.write, Advance(s.write, s.qlen)))
    case PEntered(x, w, next) =>
      if next == s.read then s.(p := PIdle, log := s.log + [WriteFull(x)])
      else s.(p := PChecked(x, w, next))
    case PChecked(x, w, next) => s.(slots := s.slots[s.smap[w] := x], p := PStored(x, w, next))
    case PStored(x, w, next) => s.(write := next, p := PIdle, log := s.log + [Wrote(x)])
  }

  function ConsumerStep(s: Ring): (t: Ring)
    requires WellFormed(s)
    ensures WellFormed(t) && t.qlen == s.qlen && t.smap == s.smap
  {
    match s.c
    case CIdle => s.(c := CEntered(s.read))
    case CEntered(r) =>
      if r == s.write then s.(c := CIdle, log := s.log + [ReadEmpty])
      else s.(c := CChecked(r))
    case CChecked(r) => s.(c := CLoaded(r, s.slots[s.smap[r]]))
    case CLoaded(r, m) => s.(read := Advance(r, s.qlen), c := CIdle, log := s.log + [Read(m)])
  }

  function Step(s: Ring, move: Move): (t: Ring)
    requires WellFormed(s)
    ensures WellFormed(t) && t.qlen == s.qlen && t.smap == s.smap
  {
    match move
    case ProducerMove(m) => ProducerStep(s, m)
    case ConsumerMove => ConsumerStep(s)
  }

  /** The state after a schedule: schedules enumerate all interleavings. */
  function Run(s: Ring, sched: seq<Move>): (t: Ring)
    requires WellFormed(s)
    ensures WellFormed(t) && t.qlen == s.qlen && t.smap == s.smap
  {
    if sched == [] then s
    else Step(Run(s, sched[..|sched| - 1]), sched[|sched| - 1])
  }

  predicate Injective(smap: seq<nat>) {
    forall i, j | 0 <= i < j < |smap| :: smap[i] != smap[j]
  }

  /** What the set-up in main demands: blq_init accepted qlen and SMAP is a permutation. */
  ghost predicate Configured(qlen: nat, smap: seq<nat>) {
    && 2 <= qlen == |smap| && PowerOfTwo(qlen)
    && (forall i | 0 <= i < qlen :: smap[i] < qlen)
    && Injective(smap)
  }

  /** Freshly allocated, zeroed memory after blq_init. */
  function Init(qlen: nat, smap: seq<nat>): (s: Ring)
    requires 2 <= qlen == |smap|
    requires forall i | 0 <= i < qlen :: smap[i] < qlen
    ensures WellFormed(s)
  {
    Ring(qlen, smap, seq(qlen, _ => 0), 0, 0, PIdle, CIdle, [])
  }

  // ---------------------------------------------------------------- the reference queue

  /** A sequential bounded FIFO queue. None: the event is not one such a queue could answer. */
  function Apply(cap: nat, q: seq<nat>, e: Event): Option<seq<nat>> {
    match e
    case Wrote(m) => if |q| < cap then Some(q + [m]) else None
    case WriteFull(_) => if |q| == cap then Some(q) else None
    case Read(m) => if q != [] && q[0] == m then Some(q[1..]) else None
    case ReadEmpty => if q == [] then Some(q) else None
  }

  /** The contents of the reference queue after a history, if the history is legal. */
  function Replay(cap: nat, log: seq<Event>): Option<seq<nat>> {
    if log == [] then Some([])
    else
      match Replay(cap, log[..|log| - 1])
      case None => None
      case Some(q) => Apply(cap, q, log[|log| - 1])
  }

  /** Values passed to successful lq_write calls, in order. */
  function Sent(log: seq<Event>): seq<nat> {
    if log == [] then []
    else
      var e := log[|log| - 1];
      Sent(log[..|log| - 1]) + if e.Wrote? then [e.m] else []
  }

  /** Values returned by non-empty lq_read calls, in order. */
  function Received(log: seq<Event>): seq<nat> {
    if log == [] then []
    else
      var e := log[|log| - 1];
      Received(log[..|log| - 1]) + if e.Read? then [e.m] else []
  }

  /** In a legal history nothing is lost, invented or reordered. */
  lemma {:induction false} ReplayConserves(cap: nat, log: seq<Event>)
    requires Replay(cap, log).Some?
    ensures Sent(log) == Received(log) + Replay(cap, log).value
    ensures |Replay(cap, log).value| <= cap
  {
    if log != [] {
      ReplayConserves(cap, log[..|log| - 1]);
    }
  }

  // ---------------------------------------------------------------- the invariant

  ghost function Contents(s: Ring): Option<seq<nat>>
    requires s.qlen > 0
  {
    Replay(s.qlen - 1, s.log)
  }

  /** The slot that holds the i-th queued value. */
  function SlotOf(smap: seq<nat>, read: nat, i: nat): nat
    requires smap != []
  {
    smap[Mod(read + i, |smap|)]
  }

  ghost predicate Holds(s: Ring, q: seq<nat>)
    requires WellFormed(s)
  {
    && |q| < s.qlen
    && s.write == Mod(s.read + |q|, s.qlen)
    && forall i: nat | i < |q| :: s.slots[SlotOf(s.smap, s.read, i)] == q[i]
  }

  ghost predicate ProducerOk(s: Ring, q: seq<nat>)
    requires WellFormed(s)
  {
    !s.p.PIdle? ==>
      && s.p.w == s.write && s.p.next == Mod(s.write + 1, s.qlen)
      && (!s.p.PEntered? ==> |q| + 1 < s.qlen)
      && (s.p.PStored? ==> s.slots[s.smap[s.p.w]] == s.p.m)
  }

  ghost predicate ConsumerOk(s: Ring, q: seq<nat>) {
    !s.c.CIdle? ==>
      && s.c.r == s.read
      && (!s.c.CEntered? ==> q != [])
      && (s.c.CLoaded? ==> s.c.m == q[0])
  }

  /** The history is a legal queue history with contents q, and the ring holds exactly q. */
  ghost predicate InvWith(s: Ring, q: seq<nat>) {
    && WellFormed(s) && Configured(s.qlen, s.smap)
    && Contents(s) == Some(q)
    && Holds(s, q) && ProducerOk(s, q) && ConsumerOk(s, q)
  }

  ghost predicate Inv(s: Ring) {
    s.qlen > 0 && Contents(s).Some? && InvWith(s, Contents(s).value)
  }

  lemma InitInv(qlen: nat, smap: seq<nat>)
    requires Configured(qlen, smap)
    ensures Inv(Init(qlen, smap))
  {
  }

  /** Masked increment is the next position on the ring. */
  lemma AdvanceIsMod(i: nat, qlen: nat)
    requires 2 <= qlen && PowerOfTwo(qlen)
    ensures Advance(i, qlen) == Mod(i + 1, qlen)
  {
    MaskIsMod(i + 1, qlen);
    ModIsRemainder(i + 1, qlen);
  }

  /** The i-th position after `read` is `read` itself only for i = 0 (or a whole turn). */
  lemma DistinctSlots(s: Ring, i: nat, j: nat)
    requires WellFormed(s) && Injective(s.smap)
    requires i < j < s.qlen
    ensures SlotOf(s.smap, s.read, i) != SlotOf(s.smap, s.read, j)
  {
    ModDistinct(s.read + i, s.read + j, s.qlen);
  }

  /** Full is reported exactly when the queue holds qlen - 1 values at the load of `read`. */
  lemma FullTest(s: Ring, q: seq<nat>)
    requires WellFormed(s) && Holds(s, q)
    ensures Mod(s.write + 1, s.qlen) == s.read <==> |q| == s.qlen - 1
  {
    ModAdd(s.read + |q|, 1, s.qlen);

    if |q| == s.qlen - 1 {
      assert Mod(s.read + s.qlen, s.qlen) == s.read;
    } else {
      ModDistinct(s.read, s.read + |q| + 1, s.qlen);
    }
  }

  /** Empty is reported exactly when the queue holds nothing at the load of `write`. */
  lemma EmptyTest(s: Ring, q: seq<nat>)
    requires WellFormed(s) && Holds(s, q)
    ensures s.read == s.write <==> q == []
  {
    if q != [] {
      ModDistinct(s.read, s.read + |q|, s.qlen);
    }
  }

  lemma AppendReplay(cap: nat, log: seq<Event>, e: Event)
    requires Replay(cap, log).Some?
    ensures Replay(cap, log + [e]) == Apply(cap, Replay(cap, log).value, e)
  {
    assert (log + [e])[..|log|] == log;
  }

  lemma AppendHistory(log: seq<Event>, e: Event)
    ensures Sent(log + [e]) == Sent(log) + if e.Wrote? then [e.m] else []
    ensures Received(log + [e]) == Received(log) + if e.Read? then [e.m] else []
  {
    assert (log + [e])[..|log|] == log;
  }

  lemma EnterWriteInv(s: Ring, m: nat, q: seq<nat>)
    requires InvWith(s, q) && s.p.PIdle?
    ensures InvWith(ProducerStep(s, m), q)
  {
    AdvanceIsMod(s.write, s.qlen);
  }

  lemma CheckFullInv(s: Ring, m: nat, q: seq<nat>)
    requires InvWith(s, q) && s.p.PEntered?
    ensures InvWith(ProducerStep(s, m), q)
    ensures ProducerStep(s, m).p.PIdle? <==> |q| == s.qlen - 1
  {
    FullTest(s, q);
    AppendReplay(s.qlen - 1, s.log, WriteFull(s.p.m));
  }

  lemma StoreInv(s: Ring, m: nat, q: seq<nat>)
    requires InvWith(s, q) && s.p.PChecked?
    ensures InvWith(ProducerStep(s, m), q)
  {
    var t := ProducerStep(s, m);
    forall i: nat | i < |q| ensures t.slots[SlotOf(t.smap, t.read, i)] == q[i] {
      DistinctSlots(s, i, |q|);
    }
  }

  /** Moving `write` on by one appends the value stored in its slot. */
  lemma PublishHolds(s: Ring, t: Ring, q: seq<nat>, x: nat)
    requires WellFormed(s) && WellFormed(t) && Holds(s, q) && |q| + 1 < s.qlen
    requires t.qlen == s.qlen && t.smap == s.smap && t.slots == s.slots && t.read == s.read
    requires t.write == Mod(s.write + 1, s.qlen) && s.slots[s.smap[s.write]] == x
    ensures Holds(t, q + [x])
  {
    ModAdd(s.read + |q|, 1, s.qlen);
    forall i: nat | i < |q| + 1 ensures t.slots[SlotOf(t.smap, t.read, i)] == (q + [x])[i] {
      assert i < |q| ==> s.slots[SlotOf(s.smap, s.read, i)] == q[i];
    }
  }

  lemma PublishInv(s: Ring, m: nat, q: seq<nat>)
    requires InvWith(s, q) && s.p.PStored?
    ensures InvWith(ProducerStep(s, m), q + [s.p.m])
  {
    var t, x := ProducerStep(s, m), s.p.m;
    AppendReplay(s.qlen - 1, s.log, Wrote(x));
    PublishHolds(s, t, q, x);
    assert ConsumerOk(t, q + [x]);
  }

  /** What a producer step does to the reference queue: only the publishing step adds a value. */
  ghost function ProducerEffect(s: Ring, q: seq<nat>): seq<nat> {
    if s.p.PStored? then q + [s.p.m] else q
  }

  lemma ProducerStepInv(s: Ring, m: nat, q: seq<nat>)
    requires InvWith(s, q)
    ensures InvWith(ProducerStep(s, m), ProducerEffect(s, q))
  {
    match s.p {
      case PIdle => EnterWriteInv(s, m, q);
      case PEntered(_, _, _) => CheckFullInv(s, m, q);
      case PChecked(_, _, _) => StoreInv(s, m, q);
      case PStored(_, _, _) => PublishInv(s, m, q);
    }
  }

  lemma CheckEmptyInv(s: Ring, q: seq<nat>)
    requires InvWith(s, q) && s.c.CEntered?
    ensures InvWith(ConsumerStep(s), q)
    ensures ConsumerStep(s).c.CIdle? <==> q == []
  {
    EmptyTest(s, q);
    AppendReplay(s.qlen - 1, s.log, ReadEmpty);
  }

  lemma LoadInv(s: Ring, q: seq<nat>)
    requires InvWith(s, q) && s.c.CChecked?
    ensures InvWith(ConsumerStep(s), q)
  {
    assert SlotOf(s.smap, s.read, 0) == s.smap[s.c.r];
  }

  /** Moving `read` on by one drops the oldest value and keeps the others in their slots. */
  lemma ReleaseHolds(s: Ring, t: Ring, q: seq<nat>)
    requires WellFormed(s) && WellFormed(t) && Holds(s, q) && q != []
    requires t.qlen == s.qlen && t.smap == s.smap && t.slots == s.slots && t.write == s.write
    requires t.read == Mod(s.read + 1, s.qlen)
    ensures Holds(t, q[1..])
  {
    assert t.write == Mod(t.read + |q[1..]|, t.qlen) by {
      ModAdd(s.read + 1, |q| - 1, s.qlen);
    }
    forall i: nat | i < |q| - 1 ensures t.slots[SlotOf(t.smap, t.read, i)] == q[1..][i] {
      ModAdd(s.read + 1, i, s.qlen);
      assert SlotOf(t.smap, t.read, i) == SlotOf(s.smap, s.read, i + 1);
    }
  }

  lemma ReleaseInv(s: Ring, q: seq<nat>)
    requires InvWith(s, q) && s.c.CLoaded?
    ensures InvWith(ConsumerStep(s), q[1..])
  {
    var t := ConsumerStep(s);
    AppendReplay(s.qlen - 1, s.log, Read(s.c.m));
    AdvanceIsMod(s.read, s.qlen);
    ReleaseHolds(s, t, q);
    assert ProducerOk(t, q[1..]);
  }

  /** What a consumer step does to the reference queue: only the releasing step drops a value. */
  ghost function ConsumerEffect(s: Ring, q: seq<nat>): seq<nat> {
    if s.c.CLoaded? && q != [] then q[1..] else q
  }

  lemma ConsumerStepInv(s: Ring, q: seq<nat>)
    requires InvWith(s, q)
    ensures InvWith(ConsumerStep(s), ConsumerEffect(s, q))
  {
    match s.c {
      case CIdle =>
      case CEntered(_) => CheckEmptyInv(s, q);
      case CChecked(_) => LoadInv(s, q);
      case CLoaded(_, _) => ReleaseInv(s, q);
    }
  }

  lemma StepInv(s: Ring, move: Move)
    requires Inv(s)
    ensures Inv(Step(s, move))
  {
    match move {
      case ProducerMove(m) => ProducerStepInv(s, m, Contents(s).value);
      case ConsumerMove => ConsumerStepInv(s, Contents(s).value);
    }
  }

  lemma {:induction false} RunInv(s: Ring, sched: seq<Move>)
    requires Inv(s)
    ensures Inv(Run(s, sched))
  {
    if sched != [] {
      RunInv(s, sched[..|sched| - 1]);
      StepInv(Run(s, sched[..|sched| - 1]), sched[|sched| - 1]);
    }
  }

  lemma SentStep(s: Ring, move: Move)
    requires WellFormed(s)
    ensures Sent(Step(s, move).log) ==
              Sent(s.log) + if move.ProducerMove? && s.p.PStored? then [s.p.m] else []
  {
    var t := Step(s, move);
    if t.log != s.log {
      AppendHistory(s.log, t.log[|s.log|]);
    }
  }

  lemma ReceivedStep(s: Ring, move: Move)
    requires WellFormed(s)
    ensures Received(Step(s, move).log) ==
              Received(s.log) + if move.ConsumerMove? && s.c.CLoaded? then [s.c.m] else []
  {
    var t := Step(s, move);
    if t.log != s.log {
      AppendHistory(s.log, t.log[|s.log|]);
    }
  }

  // ---------------------------------------------------------------- main results

  /** Every reachable state satisfies the invariant. */
  lemma {:induction false} Reachable(qlen: nat, smap: seq<nat>, sched: seq<Move>)
    requires Configured(qlen, smap)
    ensures Inv(Run(Init(qlen, smap), sched))
  {
    InitInv(qlen, smap);
    RunInv(Init(qlen, smap), sched);
  }

  /** Linearizability: under every interleaving the calls' answers, taken at their deciding
      steps, form a history of a sequential FIFO queue of capacity qlen - 1. */
  lemma {:induction false} Linearizable(qlen: nat, smap: seq<nat>, sched: seq<Move>)
    requires Configured(qlen, smap)
    ensures Replay(qlen - 1, Run(Init(qlen, smap), sched).log).Some?
  {
    Reachable(qlen, smap, sched);
  }

  /** The values read are a prefix, in order, of the values written, and at most qlen - 1 behind. */
  lemma {:induction false} Fifo(qlen: nat, smap: seq<nat>, sched: seq<Move>)
    requires Configured(qlen, smap)
    ensures var log := Run(Init(qlen, smap), sched).log;
            Received(log) <= Sent(log) && Pending(log) <= qlen - 1
  {
    Linearizable(qlen, smap, sched);
    ReplayConserves(qlen - 1, Run(Init(qlen, smap), sched).log);
  }

  /** Only the releasing step moves `read`, by one. */
  lemma ReadIndexStep(s: Ring, move: Move)
    requires WellFormed(s) && PowerOfTwo(s.qlen) && s.qlen >= 2 && (s.c.CLoaded? ==> s.c.r == s.read)
    ensures Step(s, move).read ==
              if move.ConsumerMove? && s.c.CLoaded? then Mod(s.read + 1, s.qlen) else s.read
  {
    AdvanceIsMod(s.read, s.qlen);
  }

  lemma StepCounts(s: Ring, move: Move)
    requires Inv(s) && s.read == Mod(|Received(s.log)|, s.qlen)
    ensures var t := Step(s, move); t.read == Mod(|Received(t.log)|, t.qlen)
  {
    ReceivedStep(s, move);
    ReadIndexStep(s, move);
    ModAdd(|Received(s.log)|, 1, s.qlen);
  }

  lemma {:induction false} ReadCounts(s: Ring, sched: seq<Move>)
    requires Inv(s) && s.read == Mod(|Received(s.log)|, s.qlen)
    ensures var t := Run(s, sched); t.read == Mod(|Received(t.log)|, t.qlen)
  {
    if sched != [] {
      ReadCounts(s, sched[..|sched| - 1]);
      RunInv(s, sched[..|sched| - 1]);
      StepCounts(Run(s, sched[..|sched| - 1]), sched[|sched| - 1]);
    }
  }

  /** A ring that has released n values holds the next ones in the slots n, n + 1, ... */
  lemma HoldsFrom(s: Ring, q: seq<nat>, n: nat)
    requires WellFormed(s) && Holds(s, q) && s.read == Mod(n, s.qlen)
    ensures s.write == Mod(n + |q|, s.qlen)
    ensures forall i: nat | i < |q| :: s.slots[SlotOf(s.smap, 0, n + i)] == q[i]
  {
    ModAdd(n, |q|, s.qlen);
    forall i: nat | i < |q| ensures s.slots[SlotOf(s.smap, 0, n + i)] == q[i] {
      ModAdd(n, i, s.qlen);
      assert SlotOf(s.smap, 0, n + i) == SlotOf(s.smap, s.read, i);
    }
  }

  lemma PendingInMemory(s: Ring)
    requires Inv(s) && s.read == Mod(|Received(s.log)|, s.qlen)
    ensures s.write == Mod(|Sent(s.log)|, s.qlen)
    ensures forall i: nat | |Received(s.log)| <= i < |Sent(s.log)| ::
              s.slots[SlotOf(s.smap, 0, i)] == Sent(s.log)[i]
  {
    ReplayConserves(s.qlen - 1, s.log);
    var q, n := Contents(s).value, |Received(s.log)|;
    HoldsFrom(s, q, n);
    forall i: nat | n <= i < |Sent(s.log)| ensures s.slots[SlotOf(s.smap, 0, i)] == Sent(s.log)[i] {
      assert i == n + (i - n) && Sent(s.log)[i] == q[i - n];
    }
  }

  /** The history and the shared memory agree: `write` and `read` are the numbers of values
      written and read modulo qlen, and every value not yet read sits in the slot of its number. */
  lemma {:induction false} MemoryHoldsPending(qlen: nat, smap: seq<nat>, sched: seq<Move>)
    requires Configured(qlen, smap)
    ensures var s := Run(Init(qlen, smap), sched);
            && s.write == |Sent(s.log)| % qlen && s.read == |Received(s.log)| % qlen
            && forall i: nat | |Received(s.log)| <= i < |Sent(s.log)| ::
                 s.slots[SlotOf(s.smap, 0, i)] == Sent(s.log)[i]
  {
    var s := Run(Init(qlen, smap), sched);
    Reachable(qlen, smap, sched);
    InitInv(qlen, smap);
    ReadCounts(Init(qlen, smap), sched);
    PendingInMemory(s);
    ModIsRemainder(|Sent(s.log)|, qlen);
    ModIsRemainder(|Received(s.log)|, qlen);
  }

  /** While the producer may store into a slot, the consumer is not about to load it, and no
      value that is written but not yet read lives in it. */
  lemma {:induction false} NoSlotRace(qlen: nat, smap: seq<nat>, sched: seq<Move>)
    requires Configured(qlen, smap)
    ensures var s := Run(Init(qlen, smap), sched);
            s.p.PChecked? ==>
              && (s.c.CChecked? ==> s.smap[s.p.w] != s.smap[s.c.r])
              && Contents(s).Some?
              && forall i: nat | i < |Contents(s).value| :: SlotOf(s.smap, s.read, i) != s.smap[s.p.w]
  {
    var s := Run(Init(qlen, smap), sched);
    Reachable(qlen, smap, sched);
    if s.p.PChecked? {
      var q := Contents(s).value;
      forall i: nat | i < |q| ensures SlotOf(s.smap, s.read, i) != s.smap[s.p.w] {
        DistinctSlots(s, i, |q|);
      }
      if s.c.CChecked? {
        assert SlotOf(s.smap, s.read, 0) == s.smap[s.c.r];
      }
    }
  }

  /** How many values are written but not yet read. */
  function Pending(log: seq<Event>): int {
    |Sent(log)| - |Received(log)|
  }

  lemma ExactAnswersInv(s: Ring, m: nat)
    requires Inv(s)
    ensures s.p.PEntered? ==> (ProducerStep(s, m).p.PIdle? <==> Pending(s.log) == s.qlen - 1)
    ensures s.c.CEntered? ==> (ConsumerStep(s).c.CIdle? <==> Pending(s.log) == 0)
  {
    var q := Contents(s).value;
    ReplayConserves(s.qlen - 1, s.log);
    if s.p.PEntered? {
      CheckFullInv(s, m, q);
    }
    if s.c.CEntered? {
      CheckEmptyInv(s, q);
    }
  }

  /** A full or empty answer is exact at the instant of the remote index load. */
  lemma {:induction false} ExactAnswers(qlen: nat, smap: seq<nat>, sched: seq<Move>, m: nat)
    requires Configured(qlen, smap)
    ensures var s := Run(Init(qlen, smap), sched);
            && (s.p.PEntered? ==> (ProducerStep(s, m).p.PIdle? <==> Pending(s.log) == qlen - 1))
            && (s.c.CEntered? ==> (ConsumerStep(s).c.CIdle? <==> Pending(s.log) == 0))
  {
    Reachable(qlen, smap, sched);
    ExactAnswersInv(Run(Init(qlen, smap), sched), m);
  }

  // ---------------------------------------------------------------- slot remapping

  /** The ring b over the identity map mirrors the ring a over SMAP. */
  ghost predicate Mirrors(a: Ring, b: Ring) {
    && WellFormed(a) && WellFormed(b) && Injective(a.smap)
    && b == a.(smap := b.smap, slots := b.slots)
    && forall i | 0 <= i < a.qlen :: b.smap[i] == i && b.slots[i] == a.slots[a.smap[i]]
  }

  lemma StepMirrors(a: Ring, b: Ring, move: Move)
    requires Mirrors(a, b)
    ensures Mirrors(Step(a, move), Step(b, move))
  {
    if move.ProducerMove? && a.p.PChecked? {
      var w := a.p.w;
      assert b.smap[w] == w;
      forall i | 0 <= i < a.qlen
        ensures Step(b, move).slots[i] == Step(a, move).slots[a.smap[i]]
      {
        assert i != w ==> a.smap[i] != a.smap[w];
      }
    }
  }

  lemma {:induction false} RunMirrors(a: Ring, b: Ring, sched: seq<Move>)
    requires Mirrors(a, b)
    ensures Mirrors(Run(a, sched), Run(b, sched))
  {
    if sched != [] {
      var before := sched[..|sched| - 1];
      RunMirrors(a, b, before);
      StepMirrors(Run(a, before), Run(b, before), sched[|sched| - 1]);
    }
  }

  /** Slot remapping is invisible: under every schedule the ring over SMAP and the ring over the
      identity map give the same answers and go through the same indices and program counters. */
  lemma {:induction false} RemappingInvisible(qlen: nat, smap: seq<nat>, sched: seq<Move>)
    requires Configured(qlen, smap)
    ensures var a := Run(Init(qlen, smap), sched);
            var b := Run(Init(qlen, seq(qlen, i => i)), sched);
            a.log == b.log && a.read == b.read && a.write == b.write && a.p == b.p && a.c == b.c
  {
    RunMirrors(Init(qlen, smap), Init(qlen, seq(qlen, i => i)), sched);
  }
}
