/** Power-of-two scans: findPosition of the daemon and ilog2 of the queue benchmark. */
module Scans {
  import opened Bits

  /** isPowerOfTwo of the daemon: n && !(n & (n - 1)). Unlike the queue's test it refuses 0. */
  predicate IsPowerOfTwo(n: nat) {
    n != 0 && And(n, n - 1) == 0
  }

  lemma IsPowerOfTwoMeaning(n: nat)
    ensures IsPowerOfTwo(n) <==> PowerOfTwo(n)
  {
    if n > 0 {
      ClearLowestBit(n);
    }
  }

  lemma Pow2Strict(j: nat, k: nat)
    requires j < k
    ensures Pow2(j) < Pow2(k)
  {
    Pow2Monotone(j + 1, k);
  }

  lemma AndPowers(i: nat, k: nat)
    ensures And(Pow2(k), Pow2(i)) != 0 <==> i == k
  {
    AndProbe(Pow2(k), i);
    BitOfPow2(k, i);
  }

  /** findPosition: the exponent of a power of two, -1 for everything else. */
  method FindPosition(n: nat) returns (pos: int)
    requires n < 0x1_0000_0000_0000_0000
    ensures pos == -1 <==> !PowerOfTwo(n)
    ensures pos != -1 ==> 0 <= pos < 64 && n == Pow2(pos)
  {
    IsPowerOfTwoMeaning(n);
    if !IsPowerOfTwo(n) {
      return -1;
    }
    ghost var k: nat :| n == Pow2(k);
    Pow2Of64();
    if k >= 64 {
      Pow2Monotone(64, k);
    }
    var i := 1;
    pos := 0;
    AndPowers(pos, k);
    while And(n, i) == 0
      invariant 0 <= pos <= k && i == Pow2(pos)
      invariant And(n, i) != 0 <==> pos == k
      decreases k - pos
    {
      // i << 1 cannot leave 64 bits: pos is still below k.
      i := i * 2;
      pos := pos + 1;
      AndPowers(pos, k);
    }
  }

  lemma Pow2Of64()
    ensures Pow2(64) == 0x1_0000_0000_0000_0000
  {
    Pow2Of32();
    Pow2Add(32, 32);
  }

  /** The value of a word lies between its highest bit and the next power of two. */
  lemma {:induction false} HighestBit(x: nat, r: nat)
    requires Bit(x, r) && forall i: nat | i > r :: !Bit(x, i)
    ensures Pow2(r) <= x < Pow2(r + 1)
    decreases r
  {
    if r == 0 {
      forall i: nat ensures !Bit(x / 2, i) {
        assert !Bit(x, i + 1);
      }
      NoBits(x / 2);
    } else {
      forall i: nat | i > r - 1 ensures !Bit(x / 2, i) {
        assert !Bit(x, i + 1);
      }
      HighestBit(x / 2, r - 1);
    }
  }

  lemma {:induction false} NoBits(x: nat)
    requires forall i: nat :: !Bit(x, i)
    ensures x == 0
  {
    assert !Bit(x, 0);
    if x > 0 {
      forall i: nat ensures !Bit(x / 2, i) {
        assert !Bit(x, i + 1);
      }
      NoBits(x / 2);
    }
  }

  lemma NoHighBits(x: nat, k: nat, i: nat)
    requires x < Pow2(k) && i >= k
    ensures !Bit(x, i)
  {
    ModUnique(x, Pow2(k), 0, x);
    BitOfLow(x, k, i);
  }

  /** ilog2: the probe visits all 32 bits and is shifted out at the end. */
  method Ilog2(x: nat) returns (ret: nat)
    requires 0 < x < 0x1_0000_0000
    ensures Pow2(ret) <= x < Pow2(ret + 1)
  {
    var probe, c := 1, 0;
    ret := 0;
    Pow2Of32();
    while probe != 0
      invariant c <= 32 && probe == if c == 32 then 0 else Pow2(c)
      invariant forall i: nat | i < c && Bit(x, i) :: ret >= i && Bit(x, ret)
      invariant ret == 0 || (ret < c && Bit(x, ret))
      decreases 32 - c
    {
      AndProbe(x, c);
      if And(x, probe) != 0 {
        ret := c;
      }
      ShiftOut(c);
      probe := (probe * 2) % 0x1_0000_0000;
      c := c + 1;
    }
    forall i: nat | i >= 32 ensures !Bit(x, i) {
      NoHighBits(x, 32, i);
    }
    if !Bit(x, ret) {
      NoBits(x);
    }
    HighestBit(x, ret);
  }

  /** Shifting the probe left in 32 bits: the last shift makes it 0. */
  lemma ShiftOut(c: nat)
    requires c < 32
    ensures (Pow2(c) * 2) % 0x1_0000_0000 == if c == 31 then 0 else Pow2(c + 1)
  {
    Pow2Of32();
    assert Pow2(c + 1) == 2 * Pow2(c);
    if c < 31 {
      Pow2Strict(c + 1, 32);
    }
  }
}
