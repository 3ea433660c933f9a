/** The hyperthread remapping of the older newdev device: the register write's loop over vCPUs
    calls map_hyperthread, which rewrites the very CPU set the loop is testing. */
module Hyperthread {
  import opened Bits

  /** A cpu_set_t of MAX_CPU = 64 bits. */
  type CpuSet = s: seq<bool> | |s| == 64 witness seq(64, _ => false)

  /** Guest siblings 2k and 2k + 1 go to host CPUs k and k + nprocs / 2. */
  function Remap(c: nat, nprocs: nat): nat {
    if c % 2 == 0 then c / 2 else nprocs / 2 + c / 2
  }

  /** CPU_ZERO_S then CPU_SET_S, which ignores CPUs past the end of the set. */
  function Only(c: nat): CpuSet {
    seq(64, i => i == c)
  }

  /** How many of the first n CPUs are set, and the last of them. */
  function Scan(set0: seq<bool>, n: nat): (nat, nat)
    requires n <= |set0|
  {
    if n == 0 then (0, 0)
    else
      var (count, last) := Scan(set0, n - 1);
      if set0[n - 1] then (count + 1, n - 1) else (count, last)
  }

  function MapSet(cpus: CpuSet, nprocs: nat): CpuSet {
    var (count, c) := Scan(cpus, 64);
    if count == 1 then Only(Remap(c, nprocs)) else cpus
  }

  method MapHyperthread(cpus: array<bool>, nprocs: nat) returns (remappedCpu: int)
    requires cpus.Length == 64
    modifies cpus
    ensures cpus[..] == MapSet(old(cpus[..]), nprocs)
    ensures remappedCpu ==
              var (count, c) := Scan(old(cpus[..]), 64);
              if count == 1 then Remap(c, nprocs) else -1
    // The set {2k} becomes {k}, the set {2k + 1} becomes {k + nprocs / 2}.
    ensures forall c: nat | c < 64 && old(cpus[..]) == Only(c) ::
              && remappedCpu == c / 2 + (if c % 2 == 0 then 0 else nprocs / 2)
              && forall i: nat | i < 64 :: cpus[i] <==> i == remappedCpu
    ensures (forall c: nat | c < 64 :: old(cpus[..]) != Only(c)) ==>
              remappedCpu == -1 && cpus[..] == old(cpus[..])
  {
    ghost var before := cpus[..];
    SoleCpu(before);
    forall c: nat | c < 64 && before == Only(c) ensures Scan(before, 64) == (1, c) {
      ScanOnly(c);
    }
    var setCount, settedCpu := 0, 0;
    for i := 0 to 64
      invariant (setCount, settedCpu) == Scan(before, i)
    {
      if cpus[i] {
        setCount, settedCpu := setCount + 1, i;
      }
    }
    remappedCpu := -1;
    if setCount == 1 {
      for i := 0 to 64
        invariant forall k | 0 <= k < i :: !cpus[k]
      {
        cpus[i] := false;
      }
      if settedCpu % 2 == 0 {
        remappedCpu := settedCpu / 2;
      } else {
        remappedCpu := nprocs / 2 + settedCpu / 2;
      }
      if remappedCpu < 64 {
        cpus[remappedCpu] := true;
      }
    }
  }

  /** The host: its number of CPUs, the device's hyperthreading_remapping switch, and whether
      sched_setaffinity accepts a set for a vCPU's thread. */
  datatype Host = Host(nprocs: nat, remapping: bool, accepts: (nat, CpuSet) -> bool)

  /** The set once one of its vCPUs has been met. */
  function NextSet(cpus: CpuSet, h: Host): CpuSet {
    if h.remapping then MapSet(cpus, h.nprocs) else cpus
  }

  /** newdev_bufmmio_write, case 3: table[v] is the set vCPU v is bound to. */
  method PinLoop(table: array<CpuSet>, cpus: array<bool>, h: Host)
    requires cpus.Length == 64
    modifies table, cpus
    ensures table[..] == Pinned(old(table[..]), old(cpus[..]), 0, h)
  {
    var v := 0;
    while v < table.Length
      invariant v <= table.Length
      invariant Pinned(table[..], cpus[..], v, h) == Pinned(old(table[..]), old(cpus[..]), 0, h)
    {
      ghost var t, s := table[..], cpus[..];
      if v < 64 && cpus[v] {
        if h.remapping {
          var remap := MapHyperthread(cpus, h.nprocs);
        }
        assert cpus[..] == NextSet(s, h);
        if h.accepts(v, cpus[..]) {
          table[v] := cpus[..];
          assert table[..] == t[v := NextSet(s, h)];
        }
      }
      v := v + 1;
    }
  }

  /** The table after vCPU v has been offered a set. */
  function Offer(table: seq<CpuSet>, v: nat, s: CpuSet, h: Host): (t: seq<CpuSet>)
    requires v < |table|
    ensures |t| == |table|
  {
    if h.accepts(v, s) then table[v := s] else table
  }

  /** The table after the loop has run from vCPU v to the last one. */
  function Pinned(table: seq<CpuSet>, cpus: CpuSet, v: nat, h: Host): (t: seq<CpuSet>)
    requires v <= |table|
    ensures |t| == |table|
    decreases |table| - v
  {
    if v == |table| then table
    else if v < 64 && cpus[v] then
      var next := NextSet(cpus, h);
      Pinned(Offer(table, v, next, h), next, v + 1, h)
    else Pinned(table, cpus, v + 1, h)
  }

  // ---------------------------------------------------------------- the remap

  predicate PermutesBelow(n: nat) {
    && (forall c | 0 <= c < n :: Remap(c, n) < n)
    && (forall c, d | 0 <= c < d < n :: Remap(c, n) != Remap(d, n))
  }

  /** With an even number of CPUs, two guest CPUs never share a host CPU. */
  lemma EvenRemap(c: nat, d: nat, n: nat)
    requires n % 2 == 0 && c < d < n
    ensures Remap(c, n) < n && Remap(d, n) < n && Remap(c, n) != Remap(d, n)
  {
    assert c / 2 < n / 2 && d / 2 < n / 2;
    assert c % 2 == d % 2 ==> c / 2 != d / 2;
  }

  /** With an odd number, guest CPU 1 and the last one share a host CPU. */
  lemma OddRemap(n: nat)
    requires n % 2 == 1 && n > 1
    ensures Remap(1, n) == n / 2 == Remap(n - 1, n)
  {
  }

  /** The remap permutes the host's CPUs exactly if their number is even (or there is only one). */
  lemma RemapPermutesIff(n: nat)
    ensures PermutesBelow(n) <==> n % 2 == 0 || n == 1
  {
    if n % 2 == 0 {
      forall c, d | 0 <= c < d < n ensures Remap(c, n) != Remap(d, n) {
        EvenRemap(c, d, n);
      }
      forall c | 0 <= c < n ensures Remap(c, n) < n {
        if c > 0 {
          EvenRemap(0, c, n);
        }
      }
    } else if n > 1 {
      OddRemap(n);
    }
  }

  lemma {:induction false} ScanCounts(s: CpuSet, n: nat)
    requires n <= 64
    ensures var (count, last) := Scan(s, n);
            && (count == 0 <==> forall i | 0 <= i < n :: !s[i])
            && (count > 0 ==> last < n && s[last] && forall i | last < i < n :: !s[i])
            && (count == 1 <==> last < n && s[last] && forall i | 0 <= i < n && i != last :: !s[i])
  {
    if n > 0 {
      ScanCounts(s, n - 1);
    }
  }

  lemma ScanOnly(c: nat)
    requires c < 64
    ensures Scan(Only(c), 64) == (1, c)
  {
    ScanCounts(Only(c), 64);
    assert Only(c)[c];
  }

  lemma SoleCpu(s: CpuSet)
    ensures var (count, c) := Scan(s, 64);
            count == 1 ==> c < 64 && s == Only(c)
  {
    ScanCounts(s, 64);
  }

  /** A set of several CPUs, or of none, is passed on unchanged. */
  lemma OtherSetsUnchanged(s: CpuSet, nprocs: nat)
    requires !exists c: nat :: c < 64 && s == Only(c)
    ensures MapSet(s, nprocs) == s
  {
    SoleCpu(s);
  }

  /** Guest siblings share a core: 2k and 2k + 1 go to host CPUs k and k + nprocs / 2. */
  lemma Siblings(k: nat, nprocs: nat)
    ensures Remap(2 * k, nprocs) == k
    ensures Remap(2 * k + 1, nprocs) == k + nprocs / 2
  {
  }

  // ---------------------------------------------------------------- the loop

  /** c, r(c), r(r(c)), ... as long as it strictly increases and stays below the vCPU count. */
  function Orbit(c: nat, nprocs: nat, vcpus: nat): seq<nat>
    decreases vcpus - c
  {
    if c >= vcpus || c >= 64 then []
    else [c] + if Remap(c, nprocs) > c then Orbit(Remap(c, nprocs), nprocs, vcpus) else []
  }

  lemma OrbitTail(c: nat, nprocs: nat, vcpus: nat)
    requires c < vcpus && c < 64
    ensures Orbit(c, nprocs, vcpus) ==
              [c] + if Remap(c, nprocs) > c then Orbit(Remap(c, nprocs), nprocs, vcpus) else []
  {
  }

  lemma {:induction false} OrbitFrom(c: nat, nprocs: nat, vcpus: nat)
    ensures forall u | u in Orbit(c, nprocs, vcpus) :: c <= u < vcpus
    decreases vcpus - c
  {
    if c < vcpus && c < 64 && Remap(c, nprocs) > c {
      OrbitFrom(Remap(c, nprocs), nprocs, vcpus);
    }
  }

  /** The orbit climbs: each vCPU after the first is the remap of the one before it. */
  lemma {:induction false} OrbitClimbs(c: nat, nprocs: nat, vcpus: nat, k: nat)
    requires k + 1 < |Orbit(c, nprocs, vcpus)|
    ensures var o := Orbit(c, nprocs, vcpus); o[k + 1] == Remap(o[k], nprocs) > o[k]
    decreases k
  {
    if k > 0 {
      OrbitClimbs(Remap(c, nprocs), nprocs, vcpus, k - 1);
    }
  }

  /** Once the loop is past the only CPU of the set nothing more is pinned. */
  lemma {:induction false} PastTheSet(table: seq<CpuSet>, c: nat, v: nat, h: Host)
    requires v <= |table| && (c < v || c >= 64)
    ensures Pinned(table, Only(c), v, h) == table
    decreases |table| - v
  {
    if v < |table| {
      PastTheSet(table, c, v + 1, h);
    }
  }

  /** Does the host let vCPU u have its own remap? */
  predicate OwnRemap(u: nat, h: Host) {
    h.accepts(u, Only(Remap(u, h.nprocs)))
  }

  lemma {:induction false} PinsOrbitFrom(table: seq<CpuSet>, c: nat, v: nat, h: Host, u: nat)
    requires h.remapping && v <= |table| && v <= c && u < |table|
    ensures Pinned(table, Only(c), v, h)[u] ==
              if u in Orbit(c, h.nprocs, |table|) && OwnRemap(u, h) then Only(Remap(u, h.nprocs)) else table[u]
    decreases |table| - v
  {
    if c >= 64 {
      PastTheSet(table, c, v, h);
    } else if v < |table| {
      if v < c {
        PinsOrbitFrom(table, c, v + 1, h, u);
      } else {
        OrbitTail(c, h.nprocs, |table|);
        MeetsTheCpu(table, c, h);
        var r, next := Remap(c, h.nprocs), Offer(table, c, Only(Remap(c, h.nprocs)), h);
        if r > c {
          PinsOrbitFrom(next, r, c + 1, h, u);
          OrbitFrom(r, h.nprocs, |table|);
        } else {
          PastTheSet(next, r, c + 1, h);
        }
      }
    }
  }

  /** The loop at the only CPU of the set: it goes on with the remapped set. */
  lemma MeetsTheCpu(table: seq<CpuSet>, c: nat, h: Host)
    requires h.remapping && c < |table| && c < 64
    ensures var next := Only(Remap(c, h.nprocs));
            Pinned(table, Only(c), c, h) == Pinned(Offer(table, c, next, h), next, c + 1, h)
  {
    ScanOnly(c);
  }

  /** With remapping on, a one-CPU mask {c} offers exactly the vCPUs of the climbing orbit of c their
      own remap {r(u)}; those the host accepts are pinned, all other vCPUs are left alone. */
  lemma PinsExactlyTheOrbit(table: seq<CpuSet>, c: nat, h: Host, u: nat)
    requires h.remapping && u < |table|
    ensures Pinned(table, Only(c), 0, h)[u] ==
              if u in Orbit(c, h.nprocs, |table|) && OwnRemap(u, h) then Only(Remap(u, h.nprocs)) else table[u]
  {
    PinsOrbitFrom(table, c, 0, h, u);
  }

  /** What one-CPU masks do to guest siblings, on an accepting host with remapping on: mask {2k}
      leaves vCPU 2k at {k}, and mask {2k + 1} leaves vCPU 2k + 1 at {k + nprocs / 2}. */
  lemma SiblingsPinned(table: seq<CpuSet>, k: nat, h: Host)
    requires h.remapping && 2 * k + 1 < |table| && k < 32
    requires OwnRemap(2 * k, h) && OwnRemap(2 * k + 1, h)
    ensures forall i | 0 <= i < 64 ::
              && (Pinned(table, Only(2 * k), 0, h)[2 * k][i] <==> i == k)
              && (Pinned(table, Only(2 * k + 1), 0, h)[2 * k + 1][i] <==> i == k + h.nprocs / 2)
  {
    Siblings(k, h.nprocs);
    PinsExactlyTheOrbit(table, 2 * k, h, 2 * k);
    PinsExactlyTheOrbit(table, 2 * k + 1, h, 2 * k + 1);
    OrbitTail(2 * k, h.nprocs, |table|);
    OrbitTail(2 * k + 1, h.nprocs, |table|);
  }

  /** How often d can be halved. */
  function Halvings(d: nat): nat {
    if d == 0 || d % 2 == 1 then 0 else 1 + Halvings(d / 2)
  }

  /** The last CPU that shares a core with another one. */
  function LastPaired(nprocs: nat): int {
    2 * (nprocs / 2) - 1
  }

  /** A remap that climbs halves the distance to that CPU. */
  lemma RemapHalves(c: nat, nprocs: nat)
    requires Remap(c, nprocs) > c
    ensures var r, last := Remap(c, nprocs), LastPaired(nprocs);
            c % 2 == 1 && c < r < last && 2 * (last - r) == last - c
  {
  }

  lemma RemapClimbs(c: nat, nprocs: nat)
    ensures Remap(c, nprocs) > c <==> c % 2 == 1 && c < LastPaired(nprocs)
  {
  }

  /** So the k-th member of the orbit is 2^k times closer to it than c. */
  lemma {:induction false} OrbitHalves(c: nat, nprocs: nat, vcpus: nat, k: nat)
    requires k < |Orbit(c, nprocs, vcpus)|
    ensures (LastPaired(nprocs) - Orbit(c, nprocs, vcpus)[k]) * Pow2(k) == LastPaired(nprocs) - c
    decreases k
  {
    OrbitTail(c, nprocs, vcpus);
    if k > 0 {
      var r := Remap(c, nprocs);
      RemapHalves(c, nprocs);
      OrbitHalves(r, nprocs, vcpus, k - 1);
      var x := LastPaired(nprocs) - Orbit(r, nprocs, vcpus)[k - 1];
      DoubleProduct(x, k);
    }
  }

  lemma DoubleProduct(x: int, k: nat)
    requires k > 0
    ensures x * Pow2(k) == 2 * (x * Pow2(k - 1))
  {
    var p := Pow2(k - 1);
    assert x * (2 * p) == 2 * (x * p);
  }

  /** And its length is one more than the number of times that distance can be halved. */
  lemma {:induction false} OrbitLength(c: nat, nprocs: nat, vcpus: nat)
    requires c < LastPaired(nprocs) < vcpus && LastPaired(nprocs) < 64
    ensures |Orbit(c, nprocs, vcpus)| == 1 + Halvings(LastPaired(nprocs) - c)
    decreases vcpus - c
  {
    OrbitTail(c, nprocs, vcpus);
    RemapClimbs(c, nprocs);
    if c % 2 == 1 {
      RemapHalves(c, nprocs);
      OrbitLength(Remap(c, nprocs), nprocs, vcpus);
    }
  }

  function Members(s: seq<nat>): set<nat> {
    set u | u in s
  }

  lemma AddNew(x: nat, rest: seq<nat>)
    requires x !in rest
    ensures |Members([x] + rest)| == 1 + |Members(rest)|
  {
    var s := Members(rest);
    assert Members([x] + rest) == s + {x} && x !in s;
  }

  lemma {:induction false} OrbitDistinct(c: nat, nprocs: nat, vcpus: nat)
    ensures |Members(Orbit(c, nprocs, vcpus))| == |Orbit(c, nprocs, vcpus)|
    decreases vcpus - c
  {
    if c < vcpus && c < 64 {
      OrbitTail(c, nprocs, vcpus);
      var r := Remap(c, nprocs);
      if r > c {
        OrbitDistinct(r, nprocs, vcpus);
        OrbitFrom(r, nprocs, vcpus);
        AddNew(c, Orbit(r, nprocs, vcpus));
      } else {
        AddNew(c, []);
        assert [c] + [] == [c] && Members([]) == {};
      }
    } else {
      assert Members([]) == {};
    }
  }

  lemma {:induction false} OrbitCount(c: nat, nprocs: nat, vcpus: nat)
    requires c < LastPaired(nprocs) < vcpus && LastPaired(nprocs) < 64
    ensures |Members(Orbit(c, nprocs, vcpus))| == 1 + Halvings(LastPaired(nprocs) - c)
  {
    OrbitDistinct(c, nprocs, vcpus);
    OrbitLength(c, nprocs, vcpus);
  }

  /** The vCPUs whose set the loop changes. */
  function Changed(table: seq<CpuSet>, c: nat, h: Host): set<nat> {
    set u: nat | u < |table| && Pinned(table, Only(c), 0, h)[u] != table[u]
  }

  /** The host accepts every vCPU's own remap, and no vCPU is there already. */
  ghost predicate AllRemappable(table: seq<CpuSet>, h: Host) {
    forall u: nat | u < |table| :: OwnRemap(u, h) && table[u] != Only(Remap(u, h.nprocs))
  }

  /** How many vCPUs a one-CPU mask {c} then pins: one, and one more for every time the distance
      from c to the last paired CPU can be halved. */
  lemma {:induction false} PinsHowMany(table: seq<CpuSet>, c: nat, h: Host)
    requires h.remapping && c < LastPaired(h.nprocs) < |table| && LastPaired(h.nprocs) < 64
    requires AllRemappable(table, h)
    ensures |Changed(table, c, h)| == 1 + Halvings(LastPaired(h.nprocs) - c)
  {
    ChangedIsOrbit(table, c, h);
    OrbitCount(c, h.nprocs, |table|);
  }

  lemma ChangedIsOrbit(table: seq<CpuSet>, c: nat, h: Host)
    requires h.remapping && AllRemappable(table, h)
    ensures Changed(table, c, h) == Members(Orbit(c, h.nprocs, |table|))
  {
    var o := Orbit(c, h.nprocs, |table|);
    OrbitFrom(c, h.nprocs, |table|);
    forall u: nat | u < |table| ensures Pinned(table, Only(c), 0, h)[u] != table[u] <==> u in o {
      PinsExactlyTheOrbit(table, c, h, u);
    }
  }

  /** The orbit goes on exactly when c is odd and not already on its own host CPU, and the CPU it
      maps to is the number of another vCPU. */
  lemma OrbitGoesOn(c: nat, nprocs: nat, vcpus: nat)
    requires c < vcpus && c < 64
    ensures Orbit(c, nprocs, vcpus) != [c]
            <==> c % 2 == 1 && c / 2 + 1 < nprocs / 2 && Remap(c, nprocs) < vcpus && Remap(c, nprocs) < 64
  {
  }

  /** The loop then pins more than the requested vCPU in exactly these cases, also where the orbit is
      cut off by the number of vCPUs or by the size of a set. */
  lemma {:induction false} SpillsIff(table: seq<CpuSet>, c: nat, h: Host)
    requires h.remapping && AllRemappable(table, h) && c < |table| && c < 64
    ensures c in Changed(table, c, h)
    ensures var r := Remap(c, h.nprocs);
            Changed(table, c, h) != {c}
            <==> c % 2 == 1 && c / 2 + 1 < h.nprocs / 2 && r < |table| && r < 64
  {
    var o := Orbit(c, h.nprocs, |table|);
    ChangedIsOrbit(table, c, h);
    OrbitGoesOn(c, h.nprocs, |table|);
    OrbitDistinct(c, h.nprocs, |table|);
    assert o[0] == c && c in Members(o);
    if |o| == 1 {
      assert o == [c];
      assert Members(o) == {c};
    } else {
      assert |Members(o)| != |{c}|;
    }
  }

  /** A mask of several CPUs, or any mask with remapping off, binds each vCPU in it to the whole
      mask, where the host accepts that. */
  lemma {:induction false} SeveralPinWhole(table: seq<CpuSet>, s: CpuSet, v: nat, h: Host, u: nat)
    requires v <= |table| && u < |table|
    requires h.remapping ==> !exists c: nat :: c < 64 && s == Only(c)
    ensures Pinned(table, s, v, h)[u] == if v <= u < 64 && s[u] && h.accepts(u, s) then s else table[u]
    decreases |table| - v
  {
    if v < |table| {
      if h.remapping {
        OtherSetsUnchanged(s, h.nprocs);
      }
      SeveralPinWhole(if v < 64 && s[v] then Offer(table, v, s, h) else table, s, v + 1, h, u);
    }
  }
}
