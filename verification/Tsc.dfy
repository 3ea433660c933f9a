/** ns2tsc and tsc2ns of mlib.c: conversions between nanoseconds and clock ticks in 64-bit
    arithmetic, at a calibrated rate of ticksPerSecond. */
module Tsc {
  import opened Bits

  function Ns2Tsc(ns: nat, ticksPerSecond: nat): nat {
    (ns * ticksPerSecond) % 0x1_0000_0000_0000_0000 / 1000000000
  }

  function Tsc2Ns(tsc: nat, ticksPerSecond: nat): nat
    requires ticksPerSecond > 0
  {
    (tsc * 1000000000) % 0x1_0000_0000_0000_0000 / ticksPerSecond
  }

  /** Both conversions round down, and their products wrap at 64 bits. */
  lemma Rounding(x: nat, f: nat)
    requires f > 0
    ensures var p, t := (x * f) % 0x1_0000_0000_0000_0000, Ns2Tsc(x, f);
            t * 1000000000 <= p < (t + 1) * 1000000000
    ensures var p, n := (x * 1000000000) % 0x1_0000_0000_0000_0000, Tsc2Ns(x, f);
            n * f <= p < (n + 1) * f
  {
    var p, q := (x * f) % 0x1_0000_0000_0000_0000, (x * 1000000000) % 0x1_0000_0000_0000_0000;
    assert p == 1000000000 * (p / 1000000000) + p % 1000000000;
    assert q == f * (q / f) + q % f;
    var n := q / f;
    assert (n + 1) * f == f * n + f;
  }

  /** If the first multiplication fits in 64 bits, so does the second. */
  lemma NoSecondOverflow(ns: nat, f: nat)
    requires ns * f < 0x1_0000_0000_0000_0000
    ensures Ns2Tsc(ns, f) * 1000000000 == ns * f - (ns * f) % 1000000000
  {
    var p := ns * f;
    ModUnique(p, 0x1_0000_0000_0000_0000, 0, p);
    assert p == 1000000000 * (p / 1000000000) + p % 1000000000;
  }

  /** floor((ns * f - r) / f) for a remainder r: each started f of r costs one nanosecond. */
  lemma FloorAfterLoss(ns: nat, f: nat, r: nat)
    requires f > 0 && r <= ns * f
    ensures (ns * f - r) / f == ns - (r + f - 1) / f
  {
    var loss := (r + f - 1) / f;
    var left := (r + f - 1) % f;
    assert r + f - 1 == f * loss + left;
    assert ns * f - r == f * (ns - loss) + (f - 1 - left);
    ModUnique(ns * f - r, f, ns - loss, f - 1 - left);
  }

  /** The exact round trip, for every rate: the loss is the remainder of ns * f / 10^9, in started
      multiples of f. */
  lemma {:induction false} RoundTrip(ns: nat, f: nat)
    requires f > 0 && ns * f < 0x1_0000_0000_0000_0000
    ensures Tsc2Ns(Ns2Tsc(ns, f), f) == ns - ((ns * f) % 1000000000 + f - 1) / f
  {
    var p := ns * f;
    NoSecondOverflow(ns, f);
    var q := p - p % 1000000000;
    ModUnique(q, 0x1_0000_0000_0000_0000, 0, q);
    FloorAfterLoss(ns, f, p % 1000000000);
  }

  /** At a rate of at least 10^9 ticks per second the round trip loses at most one nanosecond, and
      none exactly when ns is a whole number of ticks. */
  lemma {:induction false} FastClock(ns: nat, f: nat)
    requires f >= 1000000000 && ns * f < 0x1_0000_0000_0000_0000
    ensures Tsc2Ns(Ns2Tsc(ns, f), f) == if (ns * f) % 1000000000 == 0 then ns else ns - 1
  {
    RoundTrip(ns, f);
    var r := (ns * f) % 1000000000;
    if r == 0 {
      ModUnique(r + f - 1, f, 0, f - 1);
    } else {
      ModUnique(r + f - 1, f, 1, r - 1);
    }
  }

  /** At any positive rate the result is at most ns and greater than ns - 10^9 / f - 1. */
  lemma {:induction false} AnyClock(ns: nat, f: nat)
    requires f > 0 && ns * f < 0x1_0000_0000_0000_0000
    ensures var back := Tsc2Ns(Ns2Tsc(ns, f), f);
            back <= ns && (ns - back - 1) * f < 1000000000
  {
    RoundTrip(ns, f);
    StartedMultiples((ns * f) % 1000000000, f);
  }

  lemma StartedMultiples(r: nat, f: nat)
    requires f > 0
    ensures ((r + f - 1) / f - 1) * f <= r - 1 || r == 0
    ensures r == 0 ==> (r + f - 1) / f == 0
  {
    var loss := (r + f - 1) / f;
    assert r + f - 1 == f * loss + (r + f - 1) % f;
    assert (loss - 1) * f == f * loss - f;
    if r == 0 {
      ModUnique(f - 1, f, 0, f - 1);
    }
  }

  /** For every clock from 1 GHz up to 2^63 ticks per second the round trip is within one nanosecond
      exactly if the 64-bit product ns * ticksPerSecond does not overflow. */
  lemma {:induction false} AccurateIff(ns: nat, f: nat)
    requires 1000000000 <= f < 0x8000_0000_0000_0000
    ensures var back := Tsc2Ns(Ns2Tsc(ns, f), f);
            back == ns || back == ns - 1 <==> ns * f < 0x1_0000_0000_0000_0000
  {
    if ns * f < 0x1_0000_0000_0000_0000 {
      FastClock(ns, f);
    } else {
      Overflowed(ns, f);
    }
  }

  lemma Overflowed(ns: nat, f: nat)
    requires 0 < f < 0x8000_0000_0000_0000 && ns * f >= 0x1_0000_0000_0000_0000
    ensures Tsc2Ns(Ns2Tsc(ns, f), f) < ns - 1
  {
    var wrapped := (ns * f) % 0x1_0000_0000_0000_0000;
    var ticks := wrapped / 1000000000;
    var q := ticks * 1000000000;
    assert q <= wrapped <= ns * f - 0x1_0000_0000_0000_0000;
    ModUnique(q, 0x1_0000_0000_0000_0000, 0, q);
    var back := q / f;
    assert q == f * back + q % f;
    assert f * (ns - back) == ns * f - f * back > 2 * f;
    SmallFactor(f, ns - back);
  }

  lemma SmallFactor(f: nat, e: int)
    requires f > 0 && f * e > 2 * f
    ensures e > 2
  {
    assert f * (e - 2) == f * e - 2 * f;
    MulSize(f, e - 2);
  }
}
