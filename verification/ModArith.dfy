/** Positions on a ring of n slots. */
module ModArith {
  import Bits

  /** i mod n by repeated subtraction, which keeps the ring proofs free of division. */
  function Mod(i: nat, n: nat): (r: nat)
    requires n > 0
    ensures r < n
    decreases i
  {
    if i < n then i else Mod(i - n, n)
  }

  lemma {:induction false} ModIsRemainder(i: nat, n: nat)
    requires n > 0
    ensures Mod(i, n) == i % n
    decreases i
  {
    if i < n {
      Bits.ModUnique(i, n, 0, i);
    } else {
      ModIsRemainder(i - n, n);
      var d := (i - n) / n;
      assert i == n * (d + 1) + (i - n) % n;
      Bits.ModUnique(i, n, d + 1, (i - n) % n);
    }
  }

  // Arithmetic of the source's unsigned types: reduction modulo 2^16, 2^32 and 2^64.

  function Wrap16(x: nat): nat {
    Mod(x, 0x1_0000)
  }

  function Wrap32(x: nat): nat {
    Mod(x, 0x1_0000_0000)
  }

  function Wrap64(x: nat): nat {
    Mod(x, 0x1_0000_0000_0000_0000)
  }

  /** Wrapping the operands first does not change a wrapped sum. */
  lemma WrapAdd(a: nat, b: nat)
    ensures Wrap32(Wrap32(a) + b) == Wrap32(a + b)
    ensures Wrap32(Wrap32(a) + Wrap32(b)) == Wrap32(a + b)
  {
    ModAdd(a, b, 0x1_0000_0000);
    ModAdd(b, Wrap32(a), 0x1_0000_0000);
  }

  /** A remainder may be taken early. */
  lemma {:induction false} ModAdd(i: nat, k: nat, n: nat)
    requires n > 0
    ensures Mod(Mod(i, n) + k, n) == Mod(i + k, n)
    decreases i
  {
    if i >= n {
      ModAdd(i - n, k, n);
      assert i + k - n == (i - n) + k;
    }
  }

  /** Two positions less than a whole turn apart are different slots. */
  lemma {:induction false} ModDistinct(i: nat, j: nat, n: nat)
    requires i < j < i + n
    ensures Mod(i, n) != Mod(j, n)
    decreases i
  {
    if i >= n {
      ModDistinct(i - n, j - n, n);
    } else if j >= n {
      assert Mod(j, n) == Mod(j - n, n) == j - n;
    }
  }

  /** Reduction modulo a multiple of n is invisible modulo n. */
  lemma ModMod(i: nat, n: nat, m: nat)
    requires n > 0 && m > 0
    ensures n * m > 0
    ensures Mod(i % (n * m), n) == Mod(i, n)
  {
    Bits.MulSize(n, m);
    RemainderOfRemainder(i, n, m, n * m);
    ModIsRemainder(i, n);
    ModIsRemainder(i % (n * m), n);
  }

  lemma RemainderOfRemainder(i: nat, n: nat, m: nat, big: nat)
    requires n > 0 && big == n * m > 0
    ensures (i % big) % n == i % n
  {
    var d, r := i / big, i % big;
    var e, t := r / n, r % n;
    assert n * (m * d + e) == big * d + n * e;
    Bits.ModUnique(i, n, m * d + e, t);
  }
}
