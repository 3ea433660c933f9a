/** struct Blq and its operations as an object whose fields are updated in place. Each call runs
    here without interference, and is proved to be one uninterrupted passage of its thread through
    the state machine of LamportRing. */
module BlqQueue {
  import opened Bits
  import opened LamportRing

  /** !x || !(x & (x - 1)), for the non-negative arguments blq_init passes. */
  predicate IsPowerOfTwoTest(x: nat) {
    x == 0 || And(x, x - 1) == 0
  }

  /** The effect of a whole lq_write(m) call on the ring. */
  ghost function WriteCall(s: Ring, m: nat): Ring
    requires WellFormed(s)
  {
    var next := Advance(s.write, s.qlen);
    if next == s.read then s.(log := s.log + [WriteFull(m)])
    else s.(slots := s.slots[s.smap[s.write] := m], write := next, log := s.log + [Wrote(m)])
  }

  /** The effect of a whole lq_read() call on the ring. */
  ghost function ReadCall(s: Ring): Ring
    requires WellFormed(s)
  {
    if s.read == s.write then s.(log := s.log + [ReadEmpty])
    else s.(read := Advance(s.read, s.qlen), log := s.log + [Read(s.slots[s.smap[s.read]])])
  }

  lemma MaskedIncrement(i: nat, qlen: nat, qmask: nat)
    requires qmask + 1 == qlen
    ensures And(i + 1, qmask) == Advance(i, qlen)
  {
  }

  class Blq {
    var write: nat
    var read: nat
    var qlen: nat
    var qmask: nat
    var q: array<nat>
    var smap: seq<nat>
    ghost var log: seq<Event>

    /** The object as a state of the ring machine between calls. */
    ghost function View(): Ring
      reads this, q
    {
      Ring(qlen, smap, q[..], write, read, PIdle, CIdle, log)
    }

    ghost predicate Valid()
      reads this, q
    {
      qmask == qlen - 1 && Inv(View())
    }

    ghost function Queued(): seq<nat>
      requires Valid()
      reads this, q
    {
      Contents(View()).value
    }

    /** Zeroed memory for n slots. */
    constructor (n: nat, slotMap: seq<nat>)
      ensures fresh(q) && q[..] == seq(n, _ => 0) && smap == slotMap
      ensures write == read == qlen == qmask == 0 && log == []
    {
      write, read, qlen, qmask := 0, 0, 0, 0;
      q := new nat[n](_ => 0);
      smap := slotMap;
      log := [];
    }

    /** blq_init: succeeds on exactly the powers of two from 2 on, and then the queue is empty. */
    method BlqInit(n: int) returns (ret: int)
      requires write == read == 0 && log == []
      requires q[..] == seq(q.Length, _ => 0)
      modifies `qlen, `qmask
      ensures ret == 0 || ret == -1
      ensures ret == 0 <==> 2 <= n && PowerOfTwo(n)
      ensures ret == -1 ==> qlen == old(qlen) && qmask == old(qmask)
      ensures ret == 0 ==> qlen == n && qmask == n - 1
      ensures ret == 0 && n == q.Length && Configured(n, smap) ==>
                Valid() && View() == Init(n, smap) && Queued() == []
    {
      if 2 <= n {
        ClearLowestBit(n);
      }
      if n < 2 || !IsPowerOfTwoTest(n) {
        return -1;
      }
      qlen := n;
      qmask := n - 1;
      ret := 0;
      if n == q.Length && Configured(n, smap) {
        InitInv(n, smap);
        assert View() == Init(n, smap);
      }
    }

    method LqWrite(m: nat) returns (ret: int)
      requires Valid()
      modifies this, q
      ensures Valid() && q == old(q) && smap == old(smap) && qlen == old(qlen)
      ensures View() == WriteCall(old(View()), m)
      ensures ret == (if |old(Queued())| < qlen - 1 then 0 else -1)
      ensures Queued() == if ret == 0 then old(Queued()) + [m] else old(Queued())
    {
      ghost var s0, q0 := View(), Queued();
      WriteCallSpec(s0, m, q0);
      var w := write;
      var next := And(w + 1, qmask);
      MaskedIncrement(w, qlen, qmask);
      if next == read {
        log := log + [WriteFull(m)];
        assert View() == WriteCall(s0, m);
        return -1;
      }
      q[smap[w]] := m;
      write := next;
      log := log + [Wrote(m)];
      ret := 0;
      assert q[..] == s0.slots[s0.smap[s0.write] := m];
      assert View() == WriteCall(s0, m);
    }

    method LqRead() returns (m: nat)
      requires Valid()
      modifies this
      ensures Valid() && q == old(q) && q[..] == old(q[..]) && smap == old(smap) && qlen == old(qlen)
      ensures View() == ReadCall(old(View()))
      ensures m == if old(Queued()) == [] then 0 else old(Queued())[0]
      ensures Queued() == if old(Queued()) == [] then [] else old(Queued())[1..]
    {
      ghost var s0, q0 := View(), Queued();
      ReadCallSpec(s0, q0);
      var r := read;
      if r == write {
        log := log + [ReadEmpty];
        assert View() == ReadCall(s0);
        return 0;
      }
      m := q[smap[r]];
      MaskedIncrement(r, qlen, qmask);
      read := And(r + 1, qmask);
      log := log + [Read(m)];
      assert q[..] == s0.slots;
      assert View() == ReadCall(s0);
    }
  }

  /** A write that runs alone is two steps of the machine when full and four otherwise. */
  lemma WriteCallSteps(s: Ring, m: nat)
    requires WellFormed(s) && s.p.PIdle?
    ensures var t := ProducerStep(ProducerStep(s, m), m);
            WriteCall(s, m) == if t.p.PIdle? then t else ProducerStep(ProducerStep(t, m), m)
  {
  }

  /** A read that runs alone is two steps of the machine when empty and four otherwise. */
  lemma ReadCallSteps(s: Ring)
    requires WellFormed(s) && s.c.CIdle?
    ensures var t := ConsumerStep(ConsumerStep(s));
            ReadCall(s) == if t.c.CIdle? then t else ConsumerStep(ConsumerStep(t))
  {
  }

  /** A write that runs alone acts on the reference queue as an enqueue, or reports it full. */
  lemma {:induction false} WriteCallSpec(s: Ring, m: nat, q: seq<nat>)
    requires InvWith(s, q) && s.p.PIdle?
    ensures InvWith(WriteCall(s, m), if |q| < s.qlen - 1 then q + [m] else q)
    ensures Advance(s.write, s.qlen) == s.read <==> |q| == s.qlen - 1
  {
    WriteCallSteps(s, m);
    var s1 := ProducerStep(s, m);
    EnterWriteInv(s, m, q);
    var s2 := ProducerStep(s1, m);
    CheckFullInv(s1, m, q);
    if !s2.p.PIdle? {
      StoreInv(s2, m, q);
      PublishInv(ProducerStep(s2, m), m, q);
    }
  }

  /** A read that runs alone acts on the reference queue as a dequeue, or reports it empty. */
  lemma {:induction false} ReadCallSpec(s: Ring, q: seq<nat>)
    requires InvWith(s, q) && s.c.CIdle?
    ensures InvWith(ReadCall(s), if q == [] then q else q[1..])
    ensures s.read == s.write <==> q == []
    ensures q != [] ==> s.slots[s.smap[s.read]] == q[0]
  {
    ReadCallSteps(s);
    EmptyTest(s, q);
    var s1 := ConsumerStep(s);
    ConsumerStepInv(s, q);
    var s2 := ConsumerStep(s1);
    CheckEmptyInv(s1, q);
    if !s2.c.CIdle? {
      LoadInv(s2, q);
      ReleaseInv(ConsumerStep(s2), q);
    }
  }
}
