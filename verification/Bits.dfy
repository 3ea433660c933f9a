/** Unsigned machine words as natural numbers: bitwise AND, single bits, and the
    masking arithmetic that the power-of-two queue and pool sizes rest on. */
module Bits {

  function Pow2(k: nat): (p: nat)
    ensures p >= 1
  {
    if k == 0 then 1 else 2 * Pow2(k - 1)
  }

  /** Bitwise AND, bit by bit from the least significant end. */
  function And(a: nat, b: nat): (r: nat)
    ensures r <= a && r <= b
  {
    if a == 0 || b == 0 then 0
    else (if a % 2 == 1 && b % 2 == 1 then 1 else 0) + 2 * And(a / 2, b / 2)
  }

  /** Is bit i of n set? */
  predicate Bit(n: nat, i: nat)
    decreases i
  {
    if i == 0 then n % 2 == 1 else Bit(n / 2, i - 1)
  }

  ghost predicate PowerOfTwo(n: nat) {
    exists k: nat :: n == Pow2(k)
  }

  lemma {:induction false} Pow2Add(j: nat, k: nat)
    ensures Pow2(j + k) == Pow2(j) * Pow2(k)
  {
    if j != 0 {
      Pow2Add(j - 1, k);
      MulDouble(Pow2(j - 1), Pow2(k));
    }
  }

  lemma MulDouble(a: nat, b: nat)
    ensures 2 * (a * b) == (2 * a) * b
  {
  }

  lemma Pow2Monotone(j: nat, k: nat)
    requires j <= k
    ensures Pow2(j) <= Pow2(k)
  {
    if j < k {
      Pow2Monotone(j, k - 1);
    }
  }

  lemma Pow2Of32()
    ensures Pow2(32) == 0x1_0000_0000
  {
    assert Pow2(8) == 256;
    Pow2Add(8, 8);
    Pow2Add(16, 16);
  }

  /** n mod 2q, split into the parity of n and the remainder of its half. */
  lemma ModDouble(x: nat, q: nat)
    requires q > 0
    ensures x % (2 * q) == x % 2 + 2 * ((x / 2) % q)
  {
    var h := x / 2;
    var d, r := h / q, h % q;
    assert x == (2 * q) * d + (x % 2 + 2 * r);
    ModUnique(x, 2 * q, d, x % 2 + 2 * r);
  }

  /** The division algorithm determines quotient and remainder. */
  lemma ModUnique(x: int, n: int, d: int, r: int)
    requires n > 0 && x == n * d + r && 0 <= r < n
    ensures x % n == r && x / n == d
  {
    var e := x / n - d;
    assert n * e == r - x % n;
    MulSize(n, e);
  }

  /** A non-zero multiple of n is at least n in size. */
  lemma MulSize(n: int, e: int)
    requires n > 0
    ensures e > 0 ==> n * e >= n
    ensures e < 0 ==> n * e <= -n
  {
  }

  lemma MaskOneMore(x: nat, q: nat)
    requires q > 0 && And(x / 2, q - 1) == (x / 2) % q
    ensures And(x, 2 * q - 1) == x % (2 * q)
  {
    AndOdd(x, q);
    ModDouble(x, q);
  }

  lemma {:induction false} MaskBy(x: nat, k: nat, p: nat)
    requires p == Pow2(k)
    ensures And(x, p - 1) == x % p
    decreases k
  {
    if k > 0 {
      var q := Pow2(k - 1);
      assert p == 2 * q;
      MaskBy(x / 2, k - 1, q);
      MaskOneMore(x, q);
    }
  }

  /** Masking with 2^k - 1 is reduction modulo 2^k. */
  lemma AndMask(x: nat, k: nat)
    ensures And(x, Pow2(k) - 1) == x % Pow2(k)
  {
    MaskBy(x, k, Pow2(k));
  }

  /** An all-ones mask with one more bit keeps the parity and masks the half. */
  lemma AndOdd(x: nat, q: nat)
    requires q > 0
    ensures And(x, 2 * q - 1) == x % 2 + 2 * And(x / 2, q - 1)
  {
    assert (2 * q - 1) % 2 == 1 && (2 * q - 1) / 2 == q - 1;
  }

  lemma MaskIsMod(x: nat, n: nat)
    requires PowerOfTwo(n)
    ensures And(x, n - 1) == x % n
  {
    var k: nat :| n == Pow2(k);
    AndMask(x, k);
  }

  /** The test x & (x - 1) == 0 accepts exactly the powers of two. */
  lemma {:induction false} ClearLowestBit(x: nat)
    requires x > 0
    ensures And(x, x - 1) == 0 <==> PowerOfTwo(x)
  {
    if x == 1 {
      assert x == Pow2(0);
    } else if x % 2 == 0 {
      var h := x / 2;
      ClearLowestBit(h);
      assert (x - 1) / 2 == h - 1;
      assert And(x, x - 1) == 2 * And(h, h - 1);
      if PowerOfTwo(h) {
        var k: nat :| h == Pow2(k);
        assert x == Pow2(k + 1);
      }
      if PowerOfTwo(x) {
        var k: nat :| x == Pow2(k);
        assert h == Pow2(k - 1);
      }
    } else {
      assert (x - 1) / 2 == x / 2;
      AndSelf(x / 2);
      assert And(x, x - 1) == 2 * And(x / 2, x / 2);
      forall k: nat ensures x != Pow2(k) {
        assert k > 0 ==> Pow2(k) % 2 == 0;
      }
    }
  }

  lemma AndSelf(x: nat)
    ensures And(x, x) == x
  {
  }

  /** ANDing with a one-bit probe tests that bit. */
  lemma {:induction false} AndProbe(x: nat, i: nat)
    ensures And(x, Pow2(i)) != 0 <==> Bit(x, i)
    decreases i
  {
    if i == 0 {
      if x != 0 {
        assert And(x, 1) == (if x % 2 == 1 then 1 else 0) + 2 * And(x / 2, 0);
      }
    } else {
      AndProbe(x / 2, i - 1);
      assert Pow2(i) / 2 == Pow2(i - 1);
      if x == 0 {
        BitOfZero(i);
      }
    }
  }

  /** A bit of an AND is set exactly if both bits are. */
  lemma {:induction false} BitOfAnd(a: nat, b: nat, i: nat)
    ensures Bit(And(a, b), i) <==> Bit(a, i) && Bit(b, i)
    decreases i
  {
    if a == 0 || b == 0 {
      BitOfZero(i);
    } else if i > 0 {
      var c := And(a / 2, b / 2);
      assert And(a, b) / 2 == c;
      BitOfAnd(a / 2, b / 2, i - 1);
    }
  }

  /** Bit i is the parity of the i-fold half. */
  lemma {:induction false} BitIs(n: nat, i: nat)
    ensures Bit(n, i) <==> n / Pow2(i) % 2 == 1
    decreases i
  {
    if i > 0 {
      BitIs(n / 2, i - 1);
      HalfDiv(n, Pow2(i - 1));
    }
  }

  lemma HalfDiv(n: nat, q: nat)
    requires q > 0
    ensures n / 2 / q == n / (2 * q)
  {
    var h := n / 2;
    var d, r := h / q, h % q;
    assert n == (2 * q) * d + (n % 2 + 2 * r);
    ModUnique(n, 2 * q, d, n % 2 + 2 * r);
  }

  lemma BitOfZero(i: nat)
    ensures !Bit(0, i)
  {
  }

  /** Keeping the low k bits keeps bits 0..k-1 and clears the others. */
  lemma {:induction false} BitOfLow(n: nat, k: nat, i: nat)
    ensures Bit(n % Pow2(k), i) <==> i < k && Bit(n, i)
    decreases k
  {
    if k == 0 {
      BitOfZero(i);
    } else {
      var q := Pow2(k - 1);
      ModDouble(n, q);
      var low := n % (2 * q);
      assert low % 2 == n % 2 && low / 2 == (n / 2) % q;
      if i > 0 {
        BitOfLow(n / 2, k - 1, i - 1);
      }
    }
  }

  lemma {:induction false} BitOfPow2(k: nat, i: nat)
    ensures Bit(Pow2(k), i) <==> i == k
    decreases k
  {
    if k == 0 {
      if i > 0 {
        BitOfZero(i - 1);
      }
    } else if i > 0 {
      BitOfPow2(k - 1, i - 1);
    }
  }
}
