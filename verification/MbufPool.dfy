/** lq_producer and lq_consumer over the Lamport ring: payloads are mbufs taken from a pool that
    is reused in a circle (main makes it 2 * qlen), and the consumer adds up their `len` fields. As in
    LamportRing every access to shared memory is one step, and a run is any schedule of steps. */
module MbufPool {
  import opened Bits
  import opened ModArith
  import opened Wrappers
  import opened LamportRing

  /** The producer: about to call mbuf_get, or inside the loop that retries lq_write(m). */
  datatype ProducerLoop = PGet | PWrite(m: nat)

  /** The consumer: inside lq_read, about to count packet m, or about to mbuf_put it. */
  datatype ConsumerLoop = CRead | CCount(m: nat) | CPut(m: nat)

  datatype Thread = Producer | Consumer

  /** base is the address of the pool, lens the `len` fields of its mbufs. */
  datatype Sys = Sys(ring: Ring, base: nat, lens: seq<nat>, poolIdx: nat, producerTrash: nat,
                     csum: nat, consumerTrash: nat, pktCnt: nat,
                     pl: ProducerLoop, cl: ConsumerLoop)

  /** &pool[i], where sizeof(Mbuf) is 4160: len, padding and buf. */
  function Ptr(base: nat, i: nat): nat {
    base + i * 4160
  }

  function IndexOf(base: nat, p: nat): nat {
    if p < base then 0 else (p - base) / 4160
  }

  predicate SysWellFormed(s: Sys) {
    WellFormed(s.ring) && s.lens != []
  }

  /** &pool[pool_idx & pool_mask], with pool_mask one less than the size of the pool. */
  function TargetIndex(s: Sys): (i: nat)
    requires SysWellFormed(s)
    ensures i < |s.lens|
  {
    And(s.poolIdx, |s.lens| - 1)
  }

  /** mbuf_get: number the mbuf and advance the 32-bit pool index. */
  function MbufGet(s: Sys): (t: Sys)
    requires SysWellFormed(s)
    ensures SysWellFormed(t)
  {
    var i := TargetIndex(s);
    var extra := if s.producerTrash == 0xdeadbeef then 1 else 0;
    s.(lens := s.lens[i := Wrap32(s.poolIdx + extra)], poolIdx := Wrap32(s.poolIdx + 1),
       pl := PWrite(Ptr(s.base, i)))
  }

  /** mbuf_put: add the mbuf's number to the 32-bit checksum. */
  function MbufPut(s: Sys, m: nat): (t: Sys)
    requires SysWellFormed(s)
    ensures SysWellFormed(t)
  {
    var i := IndexOf(s.base, m);
    var len := if i < |s.lens| then s.lens[i] else 0;
    s.(consumerTrash := Wrap32(s.consumerTrash + m), csum := Wrap32(s.csum + len), cl := CRead)
  }

  function SysStep(s: Sys, th: Thread): (t: Sys)
    requires SysWellFormed(s)
    ensures SysWellFormed(t)
  {
    match th
    case Producer => (
      match s.pl
      case PGet => MbufGet(s)
      case PWrite(m) =>
        s.(ring := ProducerStep(s.ring, m), pl := if s.ring.p.PStored? then PGet else PWrite(m)))
    case Consumer => (
      match s.cl
      case CRead =>
        s.(ring := ConsumerStep(s.ring),
           cl := if s.ring.c.CLoaded? && s.ring.c.m != 0 then CCount(s.ring.c.m) else CRead)
      case CCount(m) => s.(pktCnt := Wrap64(s.pktCnt + 1), cl := CPut(m))
      case CPut(m) => MbufPut(s, m))
  }

  function SysRun(s: Sys, sched: seq<Thread>): (t: Sys)
    requires SysWellFormed(s)
    ensures SysWellFormed(t)
  {
    if sched == [] then s
    else SysStep(SysRun(s, sched[..|sched| - 1]), sched[|sched| - 1])
  }

  /** The ring as main sets it up, and a pool, not at address 0, of any size that a 32-bit index can
      walk in a circle. */
  ghost predicate SysConfigured(qlen: nat, smap: seq<nat>, base: nat, pool: nat) {
    Configured(qlen, smap) && base > 0 && PowerOfTwo(pool) && pool <= 0x1_0000_0000
  }

  function SysInit(qlen: nat, smap: seq<nat>, base: nat, pool: nat): (s: Sys)
    requires 2 <= qlen == |smap| && pool > 0
    requires forall i | 0 <= i < qlen :: smap[i] < qlen
    ensures SysWellFormed(s)
  {
    Sys(Init(qlen, smap), base, seq(pool, _ => 0), 0, 0, 0, 0, 0, PGet, CRead)
  }

  /** main's own choice: qlen is an int, so at most 2^30 survives blq_init. */
  lemma MainConfigures(qlen: nat, smap: seq<nat>, base: nat)
    requires Configured(qlen, smap) && qlen < 0x8000_0000 && base > 0
    ensures SysConfigured(qlen, smap, base, 2 * qlen)
  {
    DoubleIsPower(qlen);
  }

  lemma DoubleIsPower(qlen: nat)
    requires PowerOfTwo(qlen)
    ensures PowerOfTwo(2 * qlen)
  {
    var k: nat :| qlen == Pow2(k);
    assert 2 * qlen == Pow2(k + 1);
  }

  // ---------------------------------------------------------------- the invariant

  /** Packets whose mbuf_put is done. */
  function Completed(s: Sys): int {
    |Received(s.ring.log)| - if s.cl.CRead? then 0 else 1
  }

  /** mbufs handed out by mbuf_get. */
  function Taken(s: Sys): nat {
    |Sent(s.ring.log)| + if s.pl.PGet? then 0 else 1
  }

  /** 0 + 1 + ... + (k - 1). */
  function SumBelow(k: nat): nat {
    if k == 0 then 0 else SumBelow(k - 1) + (k - 1)
  }

  /** The addresses of the first k packets, added up. */
  function AddressSum(base: nat, pool: nat, k: nat): nat
    requires pool > 0
  {
    if k == 0 then 0 else AddressSum(base, pool, k - 1) + Ptr(base, Mod(k - 1, pool))
  }

  /** The i-th packet travels in pool entry i mod pool. */
  ghost predicate PacketsOk(sent: seq<nat>, base: nat, pool: nat)
    requires pool > 0
  {
    forall i: nat | i < |sent| :: sent[i] == Ptr(base, Mod(i, pool))
  }

  /** The mbufs of packets lo..hi-1 still hold their own numbers. */
  ghost predicate PoolOk(lens: seq<nat>, lo: int, hi: nat)
    requires |lens| > 0
  {
    forall i: nat | lo <= i < hi :: lens[Mod(i, |lens|)] == Wrap32(i)
  }

  ghost predicate ProducerLoopOk(s: Sys)
    requires SysWellFormed(s)
  {
    && s.producerTrash == 0
    && s.poolIdx == Wrap32(Taken(s))
    && (s.pl.PGet? ==> s.ring.p.PIdle?)
    && (s.pl.PWrite? ==> s.pl.m == Ptr(s.base, Mod(|Sent(s.ring.log)|, |s.lens|)))
    && (!s.ring.p.PIdle? ==> s.ring.p.m == s.pl.m)
  }

  ghost predicate ConsumerLoopOk(s: Sys)
    requires SysWellFormed(s)
  {
    && Completed(s) >= 0
    && s.csum == Wrap32(SumBelow(Completed(s)))
    && s.consumerTrash == Wrap32(AddressSum(s.base, |s.lens|, Completed(s)))
    && s.pktCnt == Wrap64(Completed(s) + if s.cl.CPut? then 1 else 0)
    && (!s.cl.CRead? ==> s.cl.m == Ptr(s.base, Mod(Completed(s), |s.lens|)) && s.ring.c.CIdle?)
  }

  /** What the two loops keep, given that the ring is a queue. */
  ghost predicate LoopInv(s: Sys) {
    && SysWellFormed(s)
    && s.base > 0 && PowerOfTwo(|s.lens|) && |s.lens| <= 0x1_0000_0000
    && Received(s.ring.log) <= Sent(s.ring.log) && Pending(s.ring.log) < s.ring.qlen
    && PacketsOk(Sent(s.ring.log), s.base, |s.lens|)
    && PoolOk(s.lens, Completed(s), Taken(s))
    && ProducerLoopOk(s) && ConsumerLoopOk(s)
  }

  ghost predicate SysInv(s: Sys) {
    Inv(s.ring) && LoopInv(s)
  }

  lemma IndexOfPtr(base: nat, i: nat)
    ensures IndexOf(base, Ptr(base, i)) == i
  {
  }

  /** The pool size divides 2^32, so the 32-bit wrap of pool_idx does not disturb the circle. */
  lemma PoolIndex(n: nat, pool: nat)
    requires PowerOfTwo(pool) && pool <= 0x1_0000_0000
    ensures And(Wrap32(n), pool - 1) == Mod(n, pool)
  {
    var k: nat :| pool == Pow2(k);
    Pow2Of32();
    if k > 32 {
      Pow2Monotone(33, k);
    }
    Pow2Add(k, 32 - k);
    ModIsRemainder(n, 0x1_0000_0000);
    ModMod(n, pool, Pow2(32 - k));
    assert pool * Pow2(32 - k) == 0x1_0000_0000;
    AndMask(Wrap32(n), k);
    ModIsRemainder(Wrap32(n), pool);
  }

  lemma SysInitInv(qlen: nat, smap: seq<nat>, base: nat, pool: nat)
    requires SysConfigured(qlen, smap, base, pool)
    ensures SysInv(SysInit(qlen, smap, base, pool))
  {
    InitInv(qlen, smap);
  }

  /** The mbufs that are out all fit in the pool, with one to spare. */
  predicate HasRoom(s: Sys) {
    Taken(s) - Completed(s) < |s.lens|
  }

  /** Numbering packet hi leaves the mbufs of packets lo..hi-1 alone, if they fit in the pool. */
  lemma PoolExtend(lens: seq<nat>, lo: int, hi: nat)
    requires |lens| > 0 && PoolOk(lens, lo, hi) && hi - lo < |lens|
    ensures PoolOk(lens[Mod(hi, |lens|) := Wrap32(hi)], lo, hi + 1)
  {
    var next := lens[Mod(hi, |lens|) := Wrap32(hi)];
    forall i: nat | lo <= i < hi + 1 ensures next[Mod(i, |lens|)] == Wrap32(i) {
      if i < hi {
        ModDistinct(i, hi, |lens|);
      }
    }
  }

  /** mbuf_get in terms of how many mbufs were taken before. */
  lemma GetState(s: Sys)
    requires LoopInv(s) && s.pl.PGet?
    ensures TargetIndex(s) == Mod(Taken(s), |s.lens|)
    ensures var n, i := Taken(s), TargetIndex(s);
            MbufGet(s) == s.(lens := s.lens[i := Wrap32(n)], poolIdx := Wrap32(n + 1),
                             pl := PWrite(Ptr(s.base, i)))
  {
    PoolIndex(Taken(s), |s.lens|);
    IndexSteps(Taken(s));
  }

  lemma IndexSteps(n: nat)
    ensures Wrap32(Wrap32(n) + 0) == Wrap32(n) && Wrap32(Wrap32(n) + 1) == Wrap32(n + 1)
  {
    WrapAdd(n, 0);
    WrapAdd(n, 1);
  }

  lemma GetInv(s: Sys)
    requires LoopInv(s) && s.pl.PGet? && HasRoom(s)
    ensures LoopInv(MbufGet(s))
  {
    GetState(s);
    TakeInv(s, Taken(s));
  }

  lemma TakeInv(s: Sys, n: nat)
    requires LoopInv(s) && s.pl.PGet? && HasRoom(s) && n == Taken(s)
    ensures var i := Mod(n, |s.lens|);
            LoopInv(s.(lens := s.lens[i := Wrap32(n)], poolIdx := Wrap32(n + 1), pl := PWrite(Ptr(s.base, i))))
  {
    var i := Mod(n, |s.lens|);
    var t := s.(lens := s.lens[i := Wrap32(n)], poolIdx := Wrap32(n + 1), pl := PWrite(Ptr(s.base, i)));
    PoolExtend(s.lens, Completed(s), n);
    assert Completed(t) == Completed(s) && Taken(t) == n + 1 && |t.lens| == |s.lens|;
    assert ProducerLoopOk(t);
    assert ConsumerLoopOk(t);
  }

  /** What a producer step inside lq_write(m) shows to the loops around it. */
  ghost predicate WriteShape(r: Ring, r': Ring, m: nat) {
    && r'.qlen == r.qlen && r'.c == r.c
    && Sent(r'.log) == Sent(r.log) + (if r.p.PStored? then [m] else [])
    && Received(r'.log) == Received(r.log)
    && (r.p.PStored? ==> r'.p.PIdle?)
    && (!r'.p.PIdle? ==> r'.p.m == m)
  }

  lemma WriteHasShape(r: Ring, m: nat)
    requires WellFormed(r) && (!r.p.PIdle? ==> r.p.m == m)
    ensures WriteShape(r, ProducerStep(r, m), m)
  {
    SentStep(r, ProducerMove(m));
    ReceivedStep(r, ProducerMove(m));
  }

  lemma WriteStepInv(s: Sys, r: Ring)
    requires LoopInv(s) && s.pl.PWrite? && WellFormed(r) && WriteShape(s.ring, r, s.pl.m)
    requires Received(r.log) <= Sent(r.log) && Pending(r.log) < r.qlen
    ensures LoopInv(s.(ring := r, pl := if s.ring.p.PStored? then PGet else s.pl))
  {
    var t := s.(ring := r, pl := if s.ring.p.PStored? then PGet else s.pl);
    var sent := Sent(s.ring.log);
    assert |Sent(r.log)| == |sent| + if s.ring.p.PStored? then 1 else 0;
    assert Taken(t) == Taken(s) && Completed(t) == Completed(s);
    assert PacketsOk(Sent(r.log), s.base, |s.lens|) by {
      PacketsExtend(sent, s.base, |s.lens|);
    }
  }

  lemma PacketsExtend(sent: seq<nat>, base: nat, pool: nat)
    requires pool > 0 && PacketsOk(sent, base, pool)
    ensures PacketsOk(sent + [Ptr(base, Mod(|sent|, pool))], base, pool)
  {
  }

  /** What a consumer step inside lq_read shows to the loop around it. */
  ghost predicate ReadShape(r: Ring, r': Ring) {
    && r'.qlen == r.qlen && r'.p == r.p
    && Sent(r'.log) == Sent(r.log)
    && Received(r'.log) == Received(r.log) + (if r.c.CLoaded? then [r.c.m] else [])
    && (r.c.CLoaded? ==> r'.c.CIdle?)
  }

  lemma ReadHasShape(r: Ring)
    requires WellFormed(r)
    ensures ReadShape(r, ConsumerStep(r))
  {
    SentStep(r, ConsumerMove);
    ReceivedStep(r, ConsumerMove);
  }

  lemma ReadStepInv(s: Sys, r: Ring)
    requires LoopInv(s) && s.cl.CRead? && WellFormed(r) && ReadShape(s.ring, r)
    requires Received(r.log) <= Sent(r.log) && Pending(r.log) < r.qlen
    requires s.ring.c.CLoaded? ==> |Received(s.ring.log)| < |Sent(s.ring.log)| &&
                                   s.ring.c.m == Sent(s.ring.log)[|Received(s.ring.log)|]
    ensures s.ring.c.CLoaded? ==> s.ring.c.m != 0
    ensures LoopInv(s.(ring := r, cl := if s.ring.c.CLoaded? then CCount(s.ring.c.m) else CRead))
  {
    var t := s.(ring := r, cl := if s.ring.c.CLoaded? then CCount(s.ring.c.m) else CRead);
    assert Taken(t) == Taken(s) && Completed(t) == Completed(s);
    assert ProducerLoopOk(t) && ConsumerLoopOk(t);
  }

  /** mbuf_put in terms of how many packets were completed before. */
  lemma PutState(s: Sys)
    requires LoopInv(s) && s.cl.CPut?
    ensures MbufPut(s, s.cl.m) ==
              s.(consumerTrash := Wrap32(AddressSum(s.base, |s.lens|, Completed(s) + 1)),
                 csum := Wrap32(SumBelow(Completed(s) + 1)), cl := CRead)
  {
    var k := Completed(s);
    assert s.lens[Mod(k, |s.lens|)] == Wrap32(k);
    PutNumbered(s, k);
  }

  /** mbuf_put of the k-th mbuf, which carries the number k. */
  lemma PutNumbered(s: Sys, k: nat)
    requires SysWellFormed(s) && s.lens[Mod(k, |s.lens|)] == Wrap32(k)
    requires s.csum == Wrap32(SumBelow(k)) && s.consumerTrash == Wrap32(AddressSum(s.base, |s.lens|, k))
    ensures MbufPut(s, Ptr(s.base, Mod(k, |s.lens|))) ==
              s.(consumerTrash := Wrap32(AddressSum(s.base, |s.lens|, k + 1)),
                 csum := Wrap32(SumBelow(k + 1)), cl := CRead)
  {
    PutAt(s, Mod(k, |s.lens|));
    AddPacket(s.base, |s.lens|, k);
  }

  lemma PutAt(s: Sys, i: nat)
    requires SysWellFormed(s) && i < |s.lens|
    ensures var m := Ptr(s.base, i);
            MbufPut(s, m) ==
              s.(consumerTrash := Wrap32(s.consumerTrash + m), csum := Wrap32(s.csum + s.lens[i]), cl := CRead)
  {
    IndexOfPtr(s.base, i);
  }

  /** One more packet in the consumer's two 32-bit sums. */
  lemma AddPacket(base: nat, pool: nat, k: nat)
    requires pool > 0
    ensures Wrap32(Wrap32(AddressSum(base, pool, k)) + Ptr(base, Mod(k, pool))) ==
              Wrap32(AddressSum(base, pool, k + 1))
    ensures Wrap32(Wrap32(SumBelow(k)) + Wrap32(k)) == Wrap32(SumBelow(k + 1))
  {
    WrapAdd(AddressSum(base, pool, k), Ptr(base, Mod(k, pool)));
    WrapAdd(SumBelow(k), k);
  }

  lemma PutInv(s: Sys)
    requires LoopInv(s) && s.cl.CPut?
    ensures LoopInv(MbufPut(s, s.cl.m))
  {
    var k := Completed(s);
    var t := s.(consumerTrash := Wrap32(AddressSum(s.base, |s.lens|, k + 1)),
                csum := Wrap32(SumBelow(k + 1)), cl := CRead);
    PutState(s);
    assert Completed(t) == k + 1 && Taken(t) == Taken(s) && t.lens == s.lens;
    assert ProducerLoopOk(t);
    assert ConsumerLoopOk(t);
  }

  /** The reference queue's contents are what is sent and not yet received. */
  lemma RingFacts(r: Ring)
    requires Inv(r)
    ensures Received(r.log) <= Sent(r.log) && Pending(r.log) < r.qlen
    ensures Contents(r) == Some(Sent(r.log)[|Received(r.log)|..])
    ensures r.c.CLoaded? ==> |Received(r.log)| < |Sent(r.log)| &&
                             r.c.m == Sent(r.log)[|Received(r.log)|]
  {
    ReplayConserves(r.qlen - 1, r.log);
  }

  lemma ProducerSysInv(s: Sys)
    requires SysInv(s) && (s.pl.PGet? ==> HasRoom(s))
    ensures SysInv(SysStep(s, Producer))
  {
    match s.pl {
      case PGet => GetInv(s);
      case PWrite(m) =>
        var r := ProducerStep(s.ring, m);
        assert Inv(r) by { StepInv(s.ring, ProducerMove(m)); }
        RingFacts(r);
        WriteHasShape(s.ring, m);
        WriteStepInv(s, r);
    }
  }

  lemma ConsumerSysInv(s: Sys)
    requires SysInv(s)
    ensures SysInv(SysStep(s, Consumer))
  {
    match s.cl {
      case CRead =>
        var r := ConsumerStep(s.ring);
        assert Inv(r) by { StepInv(s.ring, ConsumerMove); }
        RingFacts(s.ring);
        RingFacts(r);
        ReadHasShape(s.ring);
        ReadStepInv(s, r);
      case CCount(_) => CountInv(s);
      case CPut(_) => PutInv(s);
    }
  }

  lemma CountInv(s: Sys)
    requires LoopInv(s) && s.cl.CCount?
    ensures LoopInv(SysStep(s, Consumer))
  {
    WrapNext(Completed(s));
    var t := s.(pktCnt := Wrap64(Completed(s) + 1), cl := CPut(s.cl.m));
    assert SysStep(s, Consumer) == t;
    assert Completed(t) == Completed(s) && Taken(t) == Taken(s);
    assert ConsumerLoopOk(t);
    assert ProducerLoopOk(t);
  }

  lemma WrapNext(k: nat)
    ensures Wrap64(Wrap64(k) + 1) == Wrap64(k + 1)
  {
    ModAdd(k, 1, 0x1_0000_0000_0000_0000);
  }

  lemma SysStepInv(s: Sys, th: Thread)
    requires SysInv(s) && (th.Producer? && s.pl.PGet? ==> HasRoom(s))
    ensures SysInv(SysStep(s, th))
  {
    match th {
      case Producer => ProducerSysInv(s);
      case Consumer => ConsumerSysInv(s);
    }
  }

  /** At most qlen mbufs are out when the next one is taken: qlen - 1 queued and one held. */
  lemma OutAtMostQlen(s: Sys)
    requires SysInv(s) && s.pl.PGet?
    ensures Taken(s) - Completed(s) <= s.ring.qlen
  {
  }

  lemma {:induction false} SysRunInv(s: Sys, sched: seq<Thread>)
    requires SysInv(s) && s.ring.qlen < |s.lens|
    ensures SysInv(SysRun(s, sched))
  {
    if sched != [] {
      var before := SysRun(s, sched[..|sched| - 1]);
      SysRunInv(s, sched[..|sched| - 1]);
      SysRunSizes(s, sched[..|sched| - 1]);
      if before.pl.PGet? {
        OutAtMostQlen(before);
      }
      SysStepInv(before, sched[|sched| - 1]);
    }
  }

  predicate SameSizes(s: Sys, t: Sys) {
    t.ring.qlen == s.ring.qlen && |t.lens| == |s.lens| && t.base == s.base
  }

  lemma {:induction false} SysRunSizes(s: Sys, sched: seq<Thread>)
    requires SysWellFormed(s)
    ensures SameSizes(s, SysRun(s, sched))
  {
    if sched != [] {
      SysRunSizes(s, sched[..|sched| - 1]);
    }
  }

  // ---------------------------------------------------------------- main results

  lemma SumBelowClosed(k: nat)
    ensures SumBelow(k) == k * (k - 1) / 2
  {
    if k > 0 {
      SumBelowClosed(k - 1);
      assert k * (k - 1) == (k - 1) * (k - 2) + 2 * (k - 1);
    }
  }

  /** Under every interleaving, with any pool larger than the queue, after k packets the 32-bit
      checksum is 0 + 1 + ... + (k - 1) and the 64-bit packet counter is k (or already k + 1 while
      packet k is being put). */
  lemma {:induction false} Checksum(qlen: nat, smap: seq<nat>, base: nat, pool: nat, sched: seq<Thread>)
    requires SysConfigured(qlen, smap, base, pool) && qlen < pool
    ensures var s := SysRun(SysInit(qlen, smap, base, pool), sched);
            var k := Completed(s);
            && k >= 0
            && s.csum == (k * (k - 1) / 2) % 0x1_0000_0000
            && s.pktCnt == (k + if s.cl.CPut? then 1 else 0) % 0x1_0000_0000_0000_0000
  {
    var s := SysRun(SysInit(qlen, smap, base, pool), sched);
    SysInitInv(qlen, smap, base, pool);
    SysRunInv(SysInit(qlen, smap, base, pool), sched);
    ClosedSum(Completed(s));
    ModIsRemainder(Completed(s) + if s.cl.CPut? then 1 else 0, 0x1_0000_0000_0000_0000);
  }

  /** In every run the packets sent are the mbufs of the pool, 4160 bytes apart, taken in a circle.
      Those not yet put back carry their numbers. The consumer's trash is the sum of the addresses
      of the packets it has put back. */
  lemma {:induction false} PacketAddresses(qlen: nat, smap: seq<nat>, base: nat, pool: nat, sched: seq<Thread>,
                                           i: nat)
    requires SysConfigured(qlen, smap, base, pool) && qlen < pool
    ensures var s := SysRun(SysInit(qlen, smap, base, pool), sched);
            && (i < |Sent(s.ring.log)| ==> Sent(s.ring.log)[i] == base + 4160 * (i % pool))
            && (Completed(s) <= i < Taken(s) ==> |s.lens| == pool && s.lens[i % pool] == i % 0x1_0000_0000)
            && Completed(s) >= 0 && s.consumerTrash == AddressSum(base, pool, Completed(s)) % 0x1_0000_0000
  {
    var s := SysRun(SysInit(qlen, smap, base, pool), sched);
    SysInitInv(qlen, smap, base, pool);
    SysRunInv(SysInit(qlen, smap, base, pool), sched);
    SysRunSizes(SysInit(qlen, smap, base, pool), sched);
    ModIsRemainder(i, pool);
    ModIsRemainder(i, 0x1_0000_0000);
    ModIsRemainder(AddressSum(base, pool, Completed(s)), 0x1_0000_0000);
  }

  lemma ClosedSum(k: nat)
    ensures Wrap32(SumBelow(k)) == (k * (k - 1) / 2) % 0x1_0000_0000
  {
    SumBelowClosed(k);
    ModIsRemainder(SumBelow(k), 0x1_0000_0000);
  }

  /** Is the mbuf at address p queued, loaded by lq_read, or held before its mbuf_put? */
  ghost predicate InUse(s: Sys, p: nat)
    requires s.ring.qlen > 0
  {
    || (Contents(s.ring).Some? && p in Contents(s.ring).value)
    || (s.ring.c.CLoaded? && s.ring.c.m == p)
    || (!s.cl.CRead? && s.cl.m == p)
  }

  /** Is mbuf_get about to rewrite an mbuf that is queued or still held by the consumer? */
  ghost predicate ReusesInFlight(s: Sys)
    requires SysWellFormed(s)
  {
    s.pl.PGet? && s.ring.qlen > 0 && InUse(s, Ptr(s.base, TargetIndex(s)))
  }

  lemma NotInUse(s: Sys)
    requires SysInv(s) && s.pl.PGet? && HasRoom(s)
    ensures !ReusesInFlight(s)
  {
    RingFacts(s.ring);
    GetState(s);
    var sent, n, pool := Sent(s.ring.log), Taken(s), |s.lens|;
    var p := Ptr(s.base, TargetIndex(s));
    if InUse(s, p) {
      var i: nat :| Completed(s) <= i < n && p == Ptr(s.base, Mod(i, pool));
      ModDistinct(i, n, pool);
    }
  }

  /** With a pool larger than the queue mbuf_get never rewrites an mbuf in flight. */
  lemma {:induction false} NoReuseInFlight(qlen: nat, smap: seq<nat>, base: nat, pool: nat, sched: seq<Thread>)
    requires SysConfigured(qlen, smap, base, pool) && qlen < pool
    ensures !ReusesInFlight(SysRun(SysInit(qlen, smap, base, pool), sched))
  {
    var s := SysRun(SysInit(qlen, smap, base, pool), sched);
    SysInitInv(qlen, smap, base, pool);
    SysRunInv(SysInit(qlen, smap, base, pool), sched);
    SysRunSizes(SysInit(qlen, smap, base, pool), sched);
    if s.pl.PGet? {
      OutAtMostQlen(s);
      NotInUse(s);
    }
  }

  // ---------------------------------------------------------------- how large the pool must be

  /** In every run, when the producer takes an mbuf, at most qlen are out. */
  lemma {:induction false} AtMostQlenOut(qlen: nat, smap: seq<nat>, base: nat, pool: nat, sched: seq<Thread>)
    requires SysConfigured(qlen, smap, base, pool) && qlen < pool
    ensures var s := SysRun(SysInit(qlen, smap, base, pool), sched);
            s.pl.PGet? ==> Taken(s) - Completed(s) <= qlen
  {
    SysInitInv(qlen, smap, base, pool);
    SysRunInv(SysInit(qlen, smap, base, pool), sched);
    SysRunSizes(SysInit(qlen, smap, base, pool), sched);
  }

  lemma SysRunSnoc(s: Sys, sched: seq<Thread>, th: Thread)
    requires SysWellFormed(s)
    ensures SysRun(s, sched + [th]) == SysStep(SysRun(s, sched), th)
  {
    assert (sched + [th])[..|sched|] == sched;
  }

  /** Two runs that have met stay together. */
  lemma SameSysStep(s: Sys, a: seq<Thread>, u: Sys, b: seq<Thread>, th: Thread)
    requires SysWellFormed(s) && SysWellFormed(u) && SysRun(s, a) == SysRun(u, b)
    ensures SysRun(s, a + [th]) == SysRun(u, b + [th])
  {
    SysRunSnoc(s, a, th);
    SysRunSnoc(u, b, th);
  }

  lemma {:induction false} SysRunAppend(s: Sys, a: seq<Thread>, b: seq<Thread>)
    requires SysWellFormed(s)
    ensures SysRun(s, a + b) == SysRun(SysRun(s, a), b)
  {
    if b == [] {
      assert a + b == a;
    } else {
      var before, last := b[..|b| - 1], b[|b| - 1];
      assert b == before + [last];
      assert a + b == a + before + [last];
      SysRunAppend(s, a, before);
      SameSysStep(s, a + before, SysRun(s, a), before, last);
    }
  }

  /** n steps of one thread in a row. */
  function Alone(s: Sys, th: Thread, n: nat): (t: Sys)
    requires SysWellFormed(s)
    ensures SysWellFormed(t)
  {
    if n == 0 then s else SysStep(Alone(s, th, n - 1), th)
  }

  lemma {:induction false} RunAlone(s: Sys, th: Thread, n: nat)
    requires SysWellFormed(s)
    ensures SysRun(s, seq(n, _ => th)) == Alone(s, th, n)
  {
    if n > 0 {
      assert seq(n, _ => th) == seq(n - 1, _ => th) + [th];
      RunAlone(s, th, n - 1);
      SysRunSnoc(s, seq(n - 1, _ => th), th);
    }
  }

  /** What the producer leaves alone. */
  predicate SameConsumer(s: Sys, t: Sys) {
    |Received(t.ring.log)| == |Received(s.ring.log)| && t.cl == s.cl && t.ring.c == s.ring.c
  }

  /** One producer step inside lq_write moves its program counter on, unless the queue is full. */
  lemma WriteAdvances(s: Sys)
    requires SysInv(s) && s.pl.PWrite? && Pending(s.ring.log) < s.ring.qlen - 1
    ensures var t := SysStep(s, Producer);
            && SysInv(t)
            && (s.ring.p.PIdle? ==> t.ring.p.PEntered? && t.pl == s.pl)
            && (s.ring.p.PEntered? ==> t.ring.p.PChecked? && t.pl == s.pl)
            && (s.ring.p.PChecked? ==> t.ring.p.PStored? && t.pl == s.pl)
            && (s.ring.p.PStored? ==> t.pl.PGet?)
            && Pending(t.ring.log) == Pending(s.ring.log) + (if s.ring.p.PStored? then 1 else 0)
            && SameConsumer(s, t) && SameSizes(s, t)
  {
    SysStepInv(s, Producer);
    WriteHasShape(s.ring, s.pl.m);
    if s.ring.p.PEntered? {
      ExactAnswersInv(s.ring, s.pl.m);
    }
  }

  /** Five producer steps in a row take an mbuf and put it in the queue. */
  lemma ProduceOne(s: Sys)
    requires SysInv(s) && s.pl.PGet? && HasRoom(s) && Pending(s.ring.log) < s.ring.qlen - 1
    ensures var t := Alone(s, Producer, 5);
            && SysInv(t) && t.pl.PGet? && SameSizes(s, t)
            && Pending(t.ring.log) == Pending(s.ring.log) + 1 && SameConsumer(s, t)
  {
    AloneSteps(s, Producer);
    SysStepInv(s, Producer);
    var s1 := SysStep(s, Producer);
    WriteToStored(s1);
    WriteAdvances(SysStep(SysStep(SysStep(s1, Producer), Producer), Producer));
  }

  /** The first three steps of a write into a queue that is not full. */
  lemma WriteToStored(s: Sys)
    requires SysInv(s) && s.pl.PWrite? && s.ring.p.PIdle? && Pending(s.ring.log) < s.ring.qlen - 1
    ensures var t := SysStep(SysStep(SysStep(s, Producer), Producer), Producer);
            && SysInv(t) && SameSizes(s, t) && t.pl == s.pl && t.ring.p.PStored?
            && Pending(t.ring.log) == Pending(s.ring.log) && SameConsumer(s, t)
  {
    WriteAdvances(s);
    var s1 := SysStep(s, Producer);
    WriteAdvances(s1);
    WriteAdvances(SysStep(s1, Producer));
  }

  /** Four, and five, steps. */
  lemma AloneSteps(s: Sys, th: Thread)
    requires SysWellFormed(s)
    ensures Alone(s, th, 4) == SysStep(SysStep(SysStep(SysStep(s, th), th), th), th)
    ensures Alone(s, th, 5) == SysStep(Alone(s, th, 4), th)
  {
    var s1 := SysStep(s, th);
    assert Alone(s, th, 1) == SysStep(Alone(s, th, 0), th) == s1;
    assert Alone(s, th, 2) == SysStep(s1, th);
    assert Alone(s, th, 3) == SysStep(SysStep(s1, th), th);
  }

  /** Four consumer steps in a row load the oldest packet of a non-empty queue and free its slot. */
  lemma ConsumeOne(s: Sys)
    requires SysInv(s) && s.cl.CRead? && s.ring.c.CIdle? && Pending(s.ring.log) > 0
    ensures var t := Alone(s, Consumer, 4);
            && SysInv(t) && t.pl == s.pl && t.cl.CCount? && SameSizes(s, t)
            && Pending(t.ring.log) == Pending(s.ring.log) - 1
            && |Received(t.ring.log)| == |Received(s.ring.log)| + 1
  {
    AloneSteps(s, Consumer);
    ReadAdvances(s);
    var s1 := SysStep(s, Consumer);
    ReadAdvances(s1);
    var s2 := SysStep(s1, Consumer);
    ReadAdvances(s2);
    ReadAdvances(SysStep(s2, Consumer));
  }

  /** A loaded packet is an address in the pool, so lq_read's caller does not take it for empty. */
  lemma LoadedNotNull(s: Sys)
    requires SysInv(s) && s.ring.c.CLoaded?
    ensures s.ring.c.m != 0
  {
    RingFacts(s.ring);
  }

  lemma ReadRing(r: Ring)
    requires Inv(r) && Pending(r.log) > 0
    ensures var t := ConsumerStep(r);
            && (r.c.CIdle? ==> t.c.CEntered?) && (r.c.CEntered? ==> t.c.CChecked?)
            && (r.c.CChecked? ==> t.c.CLoaded?)
            && |Sent(t.log)| == |Sent(r.log)|
            && |Received(t.log)| == |Received(r.log)| + (if r.c.CLoaded? then 1 else 0)
  {
    ReadHasShape(r);
    if r.c.CEntered? {
      ExactAnswersInv(r, 0);
    }
  }

  /** One consumer step inside lq_read moves its program counter on, unless the queue is empty. */
  lemma ReadAdvances(s: Sys)
    requires SysInv(s) && s.cl.CRead? && Pending(s.ring.log) > 0
    ensures var t := SysStep(s, Consumer);
            && SysInv(t) && t.pl == s.pl && SameSizes(s, t)
            && (s.ring.c.CIdle? ==> t.ring.c.CEntered? && t.cl.CRead?)
            && (s.ring.c.CEntered? ==> t.ring.c.CChecked? && t.cl.CRead?)
            && (s.ring.c.CChecked? ==> t.ring.c.CLoaded? && t.cl.CRead?)
            && (s.ring.c.CLoaded? ==> t.cl.CCount?)
            && |Sent(t.ring.log)| == |Sent(s.ring.log)|
            && |Received(t.ring.log)| == |Received(s.ring.log)| + (if s.ring.c.CLoaded? then 1 else 0)
  {
    SysStepInv(s, Consumer);
    ReadRing(s.ring);
    RingFacts(s.ring);
    if s.ring.c.CLoaded? {
      LoadedNotNull(s);
    }
  }

  /** The producer alone can fill the queue up to any level for which the pool has mbufs left. */
  lemma {:induction false} FillTo(s: Sys, level: nat) returns (sched: seq<Thread>)
    requires SysInv(s) && s.pl.PGet? && Pending(s.ring.log) <= level <= s.ring.qlen - 1
    requires level + |Received(s.ring.log)| - Completed(s) <= |s.lens|
    ensures var t := SysRun(s, sched);
            && SysInv(t) && t.pl.PGet? && SameSizes(s, t)
            && Pending(t.ring.log) == level && SameConsumer(s, t)
    decreases level - Pending(s.ring.log)
  {
    if Pending(s.ring.log) == level {
      sched := [];
    } else {
      ProduceOne(s);
      RunAlone(s, Producer, 5);
      var rest := FillTo(Alone(s, Producer, 5), level);
      sched := seq(5, _ => Producer) + rest;
      SysRunAppend(s, seq(5, _ => Producer), rest);
    }
  }

  /** Are qlen mbufs out, one of them held by the consumer, as the producer takes the next? */
  ghost predicate PoolPressed(s: Sys, qlen: nat) {
    s.pl.PGet? && s.cl.CCount? && Taken(s) - Completed(s) == qlen
  }

  /** With a pool of at least qlen mbufs: fill the queue, load one packet, fill the queue again. */
  lemma FillReadFill(s: Sys) returns (sched: seq<Thread>)
    requires SysInv(s) && s.pl.PGet? && s.cl.CRead? && s.ring.c.CIdle?
    requires Pending(s.ring.log) <= s.ring.qlen - 1 && s.ring.qlen <= |s.lens|
    ensures var t := SysRun(s, sched);
            SysInv(t) && SameSizes(s, t) && PoolPressed(t, s.ring.qlen)
  {
    var fill := FillTo(s, s.ring.qlen - 1);
    var full := SysRun(s, fill);
    ConsumeOne(full);
    RunAlone(full, Consumer, 4);
    SysRunAppend(s, fill, seq(4, _ => Consumer));
    var more := FillTo(Alone(full, Consumer, 4), s.ring.qlen - 1);
    SysRunAppend(s, fill + seq(4, _ => Consumer), more);
    sched := fill + seq(4, _ => Consumer) + more;
  }

  /** The bound of AtMostQlenOut is reached. */
  lemma {:induction false} QlenOutIsReached(qlen: nat, smap: seq<nat>, base: nat, pool: nat)
    requires SysConfigured(qlen, smap, base, pool) && qlen <= pool
    ensures exists sched :: PoolPressed(SysRun(SysInit(qlen, smap, base, pool), sched), qlen)
  {
    SysInitInv(qlen, smap, base, pool);
    var sched := FillReadFill(SysInit(qlen, smap, base, pool));
  }

  /** Once the whole pool is out, the next mbuf is the oldest one in flight. */
  lemma OldestIsReused(s: Sys)
    requires SysInv(s) && s.pl.PGet? && Taken(s) - Completed(s) == |s.lens|
    ensures ReusesInFlight(s)
  {
    RingFacts(s.ring);
    GetState(s);
    var k, sent := Completed(s), Sent(s.ring.log);
    ModAdd(k, |s.lens|, |s.lens|);
    assert TargetIndex(s) == Mod(k, |s.lens|);
    if s.cl.CRead? {
      assert Contents(s.ring).value[0] == sent[k];
    }
  }

  /** With any pool of at most qlen mbufs, some run rewrites an mbuf in flight. */
  lemma {:induction false} SmallPoolReuses(qlen: nat, smap: seq<nat>, base: nat, pool: nat)
    returns (sched: seq<Thread>)
    requires SysConfigured(qlen, smap, base, pool) && pool <= qlen
    ensures ReusesInFlight(SysRun(SysInit(qlen, smap, base, pool), sched))
  {
    var s := SysInit(qlen, smap, base, pool);
    SysInitInv(qlen, smap, base, pool);
    if pool < qlen {
      sched := FillTo(s, pool);
    } else {
      sched := FillReadFill(s);
    }
    OldestIsReused(SysRun(s, sched));
  }

  /** Exactly which pools are large enough, among those whose size is a power of two: no run
      rewrites an mbuf in flight if and only if the pool is larger than the queue. The 2 * qlen of
      main is thus the smallest that does. */
  lemma {:induction false} PoolSizeIff(qlen: nat, smap: seq<nat>, base: nat, pool: nat)
    requires SysConfigured(qlen, smap, base, pool)
    ensures NeverReuses(SysInit(qlen, smap, base, pool)) <==> 2 * qlen <= pool
  {
    PowersApart(qlen, pool);
    var s := SysInit(qlen, smap, base, pool);
    if qlen < pool {
      forall sched ensures !ReusesInFlight(SysRun(s, sched)) {
        NoReuseInFlight(qlen, smap, base, pool, sched);
      }
    } else {
      var sched := SmallPoolReuses(qlen, smap, base, pool);
      assert ReusesInFlight(SysRun(s, sched));
    }
  }

  ghost predicate NeverReuses(s: Sys)
    requires SysWellFormed(s)
  {
    forall sched :: !ReusesInFlight(SysRun(s, sched))
  }

  /** A power of two above another is at least twice as large. */
  lemma PowersApart(a: nat, b: nat)
    requires PowerOfTwo(a) && PowerOfTwo(b)
    ensures a < b <==> 2 * a <= b
  {
    var i: nat :| a == Pow2(i);
    var j: nat :| b == Pow2(j);
    if i < j {
      Pow2Monotone(i + 1, j);
    } else {
      Pow2Monotone(j, i);
    }
  }

  // ---------------------------------------------------------------- the objects

  /** The part of struct Global behind mbuf_get, and the consumer's two sums. */
  class Global {
    const pool: array<nat>
    const poolMask: nat
    const base: nat
    var poolIdx: nat

    constructor (qlen: nat, base: nat)
      requires qlen > 0
      ensures fresh(pool) && pool.Length == 2 * qlen && poolMask == 2 * qlen - 1
      ensures pool[..] == seq(2 * qlen, _ => 0) && this.base == base && poolIdx == 0
    {
      pool := new nat[2 * qlen](_ => 0);
      poolMask := 2 * qlen - 1;
      this.base := base;
      poolIdx := 0;
    }

    /** mbuf_get, when n mbufs were taken before: the mbuf handed out is the n-th on the circle, and
        it carries the number n unless trash has one particular value. */
    method MbufGet(trash: nat, ghost n: nat, ghost qlen: nat) returns (m: nat)
      requires PowerOfTwo(qlen) && qlen < 0x8000_0000
      requires pool.Length == 2 * qlen && poolMask == 2 * qlen - 1
      requires poolIdx == Wrap32(n)
      modifies `poolIdx, pool
      ensures m == Ptr(base, Mod(n, 2 * qlen)) && poolIdx == Wrap32(n + 1)
      ensures m == base + 4160 * (n % (2 * qlen)) && poolIdx == (n + 1) % 0x1_0000_0000
      ensures pool[..] ==
                old(pool[..])[Mod(n, 2 * qlen) := Wrap32(if trash == 0xdeadbeef then n + 1 else n)]
    {
      DoubleIsPower(qlen);
      PoolIndex(n, 2 * qlen);
      ModIsRemainder(n, 2 * qlen);
      ModIsRemainder(n + 1, 0x1_0000_0000);
      WrapAdd(n, 0);
      WrapAdd(n, 1);
      var i := And(poolIdx, poolMask);
      pool[i] := Wrap32(poolIdx + if trash == 0xdeadbeef then 1 else 0);
      poolIdx := Wrap32(poolIdx + 1);
      m := Ptr(base, i);
    }
  }
}
