/** qslotmap_init: the table of 16-bit slot indices behind SMAP. The outcomes of std::shuffle are
    parameters: order permutes the cache lines, within[j] the entries of the j-th line. */
module SlotMap {
  import opened ModArith
  import Bits
  import Ring = LamportRing

  /** A permutation of 0..n-1. */
  predicate IsPermutation(s: seq<nat>, n: nat) {
    && |s| == n
    && (forall i | 0 <= i < n :: s[i] < n)
    && (forall i, j | 0 <= i < j < n :: s[i] != s[j])
  }

  /** A shuffle of n entries moves entry p[i] to place i, for some p that hits every entry. */
  ghost predicate ShuffleOf(p: seq<nat>, n: nat) {
    IsPermutation(p, n) && forall x: nat | x < n :: x in p
  }

  ghost predicate Shuffles(order: seq<nat>, within: seq<seq<nat>>, lines: nat) {
    && ShuffleOf(order, lines)
    && |within| == lines
    && forall j | 0 <= j < lines :: ShuffleOf(within[j], 8)
  }

  /** Place x of a shuffled table, with K = 8 entries to a cache line: v[j] = K * j before v is
      shuffled, u[i] = v[j] + i before u is, and both vectors hold unsigned shorts. */
  function Entry(order: seq<nat>, within: seq<seq<nat>>, x: nat): nat
    requires x / 8 < |order| && x / 8 < |within| && |within[x / 8]| == 8
  {
    Wrap16(Wrap16(8 * order[x / 8]) + within[x / 8][x % 8])
  }

  /** The table after qslotmap_init on zeroed memory. */
  function Table(qlen: nat, shuffle: bool, order: seq<nat>, within: seq<seq<nat>>): (t: seq<nat>)
    requires shuffle ==> |order| == |within| == qlen / 8 && forall j | 0 <= j < qlen / 8 :: |within[j]| == 8
    ensures |t| == qlen
  {
    seq(qlen, x requires 0 <= x < qlen =>
      if !shuffle then Wrap16(x)
      else if x / 8 < qlen / 8 then Entry(order, within, x) else 0)
  }

  method Shuffle(v: array<nat>, p: seq<nat>)
    requires ShuffleOf(p, v.Length)
    modifies v
    ensures forall i | 0 <= i < v.Length :: v[i] == old(v[p[i]])
  {
    var before := v[..];
    for i := 0 to v.Length
      invariant forall k | 0 <= k < i :: v[k] == before[p[k]]
    {
      v[i] := before[p[i]];
    }
  }

  method QslotmapInit(qslotmap: array<nat>, shuffle: bool, order: seq<nat>, within: seq<seq<nat>>)
    requires shuffle ==> Shuffles(order, within, qslotmap.Length / 8)
    modifies qslotmap
    ensures !shuffle ==> forall x | 0 <= x < qslotmap.Length :: qslotmap[x] == x % 65536
    ensures shuffle ==>
              forall x | 0 <= x < qslotmap.Length ::
                qslotmap[x] == if x / 8 < qslotmap.Length / 8
                               then (8 * order[x / 8] + within[x / 8][x % 8]) % 65536 else old(qslotmap[x])
    ensures (forall x | 0 <= x < qslotmap.Length :: old(qslotmap[x]) == 0) ==>
              qslotmap[..] == Table(qslotmap.Length, shuffle, order, within)
  {
    var qlen := qslotmap.Length;
    if !shuffle {
      for x := 0 to qlen
        invariant forall y | 0 <= y < x :: qslotmap[y] == Wrap16(y)
      {
        qslotmap[x] := Wrap16(x);
      }
      forall x: nat ensures Wrap16(x) == x % 65536 {
        ModIsRemainder(x, 65536);
      }
      return;
    }
    var v := ShuffledLines(qlen / 8, order);
    for j := 0 to qlen / 8
      invariant forall k | 0 <= k < v.Length :: v[k] == Wrap16(8 * order[k])
      invariant forall x | 8 * j <= x < qlen :: qslotmap[x] == old(qslotmap[..])[x]
      invariant forall x | 0 <= x < 8 * j :: qslotmap[x] == Entry(order, within, x)
    {
      var u := ShuffledLine(v[j], within[j]);
      CopyLine(qslotmap, j, u);
    }
    forall x | 0 <= x < qlen && x / 8 < qlen / 8
      ensures Entry(order, within, x) == (8 * order[x / 8] + within[x / 8][x % 8]) % 65536
    {
      EntryIs(order, within, x);
    }
  }

  /** The vector v of line starts, after its shuffle. */
  method ShuffledLines(lines: nat, order: seq<nat>) returns (v: array<nat>)
    requires ShuffleOf(order, lines)
    ensures fresh(v) && v.Length == lines
    ensures forall j | 0 <= j < lines :: v[j] == Wrap16(8 * order[j])
  {
    v := new nat[lines];
    for j := 0 to lines
      invariant forall k | 0 <= k < j :: v[k] == Wrap16(8 * k)
    {
      v[j] := Wrap16(8 * j);
    }
    Shuffle(v, order);
  }

  /** The vector u of one cache line, after its shuffle. */
  method ShuffledLine(start: nat, p: seq<nat>) returns (u: array<nat>)
    requires ShuffleOf(p, 8)
    ensures fresh(u) && u.Length == 8
    ensures forall i | 0 <= i < 8 :: u[i] == Wrap16(start + p[i])
  {
    u := new nat[8];
    for i := 0 to 8
      invariant forall k | 0 <= k < i :: u[k] == Wrap16(start + k)
    {
      u[i] := Wrap16(start + i);
    }
    Shuffle(u, p);
  }

  method CopyLine(qslotmap: array<nat>, j: nat, u: array<nat>)
    requires 8 * j + 8 <= qslotmap.Length && u.Length == 8 && u != qslotmap
    modifies qslotmap
    ensures forall x | 0 <= x < qslotmap.Length ::
              qslotmap[x] == if 8 * j <= x < 8 * j + 8 then u[x - 8 * j] else old(qslotmap[x])
  {
    for i := 0 to 8
      invariant forall x | 0 <= x < qslotmap.Length ::
                  qslotmap[x] == if 8 * j <= x < 8 * j + i then u[x - 8 * j] else old(qslotmap[x])
    {
      qslotmap[j * 8 + i] := u[i];
    }
  }

  lemma EntryIs(order: seq<nat>, within: seq<seq<nat>>, x: nat)
    requires x / 8 < |order| && x / 8 < |within| && |within[x / 8]| == 8
    ensures Entry(order, within, x) == (8 * order[x / 8] + within[x / 8][x % 8]) % 65536
  {
    ModAdd(8 * order[x / 8], within[x / 8][x % 8], 65536);
    ModIsRemainder(8 * order[x / 8] + within[x / 8][x % 8], 65536);
  }

  /** Every place of the table: its own number without a shuffle, the entry that the two shuffles
      bring there with one, and 0 behind the last whole cache line. */
  lemma TableIs(qlen: nat, shuffle: bool, order: seq<nat>, within: seq<seq<nat>>, x: nat)
    requires x < qlen
    requires shuffle ==> |order| == |within| == qlen / 8 && forall j | 0 <= j < qlen / 8 :: |within[j]| == 8
    ensures Table(qlen, shuffle, order, within)[x] ==
              if !shuffle then x % 65536
              else if x / 8 < qlen / 8 then (8 * order[x / 8] + within[x / 8][x % 8]) % 65536 else 0
  {
    if !shuffle {
      ModIsRemainder(x, 65536);
    } else if x / 8 < qlen / 8 {
      EntryIs(order, within, x);
    }
  }

  /** Without a shuffle the table is the identity. */
  lemma PlainTable(qlen: nat, order: seq<nat>, within: seq<seq<nat>>)
    requires qlen <= 65536
    ensures Table(qlen, false, order, within) == seq(qlen, i => i)
  {
    forall x | 0 <= x < qlen ensures Table(qlen, false, order, within)[x] == x {
      TableIs(qlen, false, order, within, x);
      Bits.ModUnique(x, 65536, 0, x);
    }
  }

  // ---------------------------------------------------------------- when SMAP is a permutation

  /** Without truncation an entry lies in the cache line that order chose for its own line. */
  lemma EntryInLine(order: seq<nat>, within: seq<seq<nat>>, lines: nat, x: nat)
    requires Shuffles(order, within, lines) && lines <= 8192 && x / 8 < lines
    ensures Entry(order, within, x) == 8 * order[x / 8] + within[x / 8][x % 8]
  {
  }

  lemma ShuffledIsPermutation(qlen: nat, order: seq<nat>, within: seq<seq<nat>>)
    requires Shuffles(order, within, qlen / 8) && qlen % 8 == 0 && qlen <= 65536
    ensures IsPermutation(Table(qlen, true, order, within), qlen)
  {
    var t := Table(qlen, true, order, within);
    forall x | 0 <= x < qlen ensures t[x] < qlen {
      EntryInLine(order, within, qlen / 8, x);
    }
    forall x, y | 0 <= x < y < qlen ensures t[x] != t[y] {
      EntryInLine(order, within, qlen / 8, x);
      EntryInLine(order, within, qlen / 8, y);
      if x / 8 == y / 8 {
        assert within[x / 8][x % 8] != within[x / 8][y % 8];
      }
    }
  }

  /** Every line number below lines has a line sent to it, and that line a first entry. */
  lemma LineStart(order: seq<nat>, within: seq<seq<nat>>, lines: nat, l: nat) returns (x: nat)
    requires Shuffles(order, within, lines) && l < lines
    ensures x < 8 * lines && order[x / 8] == l
    ensures Entry(order, within, x) == Wrap16(Wrap16(8 * l))
  {
    assert l in order;
    var j :| 0 <= j < lines && order[j] == l;
    assert 0 in within[j];
    var i :| 0 <= i < 8 && within[j][i] == 0;
    x := 8 * j + i;
  }

  /** For every queue length from 2 on, every shuffle flag and every shuffle outcome, SMAP is a
      permutation exactly if the indices fit in an unsigned short and, when shuffling, the queue
      is a whole number of cache lines. */
  lemma PermutationIff(qlen: nat, shuffle: bool, order: seq<nat>, within: seq<seq<nat>>)
    requires 2 <= qlen && (shuffle ==> Shuffles(order, within, qlen / 8))
    ensures IsPermutation(Table(qlen, shuffle, order, within), qlen)
            <==> qlen <= 65536 && (shuffle ==> qlen % 8 == 0)
  {
    var t := Table(qlen, shuffle, order, within);
    if !shuffle {
      if qlen > 65536 {
        assert t[0] == t[65536];
      }
    } else if qlen % 8 != 0 {
      UnfilledTail(qlen, order, within);
    } else if qlen > 65536 {
      var x := LineStart(order, within, qlen / 8, 0);
      var y := LineStart(order, within, qlen / 8, 8192);
      assert Wrap16(8 * 8192) == 0;
      assert t[x] == t[y] == 0 && x != y;
    } else {
      ShuffledIsPermutation(qlen, order, within);
    }
  }

  /** Entries past the last whole line keep the 0 of the fresh memory. */
  lemma UnfilledTail(qlen: nat, order: seq<nat>, within: seq<seq<nat>>)
    requires 2 <= qlen && qlen % 8 != 0 && Shuffles(order, within, qlen / 8)
    ensures !IsPermutation(Table(qlen, true, order, within), qlen)
  {
    var t := Table(qlen, true, order, within);
    assert t[qlen - 1] == 0;
    if qlen < 8 {
      assert t[0] == 0;
    } else {
      var x := LineStart(order, within, qlen / 8, 0);
      assert t[x] == 0 && x < qlen - 1;
    }
  }

  /** Where in its block a slot of a line is found. */
  lemma PlaceInBlock(qlen: nat, order: seq<nat>, within: seq<seq<nat>>, j: nat, slot: nat) returns (x: nat)
    requires Shuffles(order, within, qlen / 8) && qlen % 8 == 0 && qlen <= 65536 && j < qlen / 8
    requires slot / 8 == order[j]
    ensures 8 * j <= x < 8 * j + 8 && x < qlen && Table(qlen, true, order, within)[x] == slot
  {
    assert slot % 8 in within[j];
    var i :| 0 <= i < 8 && within[j][i] == slot % 8;
    x := 8 * j + i;
    EntryInLine(order, within, qlen / 8, x);
  }

  /** A shuffled table sends each block of K consecutive places onto one whole cache line. */
  lemma BlocksAreLines(qlen: nat, order: seq<nat>, within: seq<seq<nat>>, j: nat)
    requires Shuffles(order, within, qlen / 8) && qlen % 8 == 0 && qlen <= 65536 && j < qlen / 8
    ensures var t := Table(qlen, true, order, within);
            forall slot: nat :: (exists x | 8 * j <= x < 8 * j + 8 :: t[x] == slot)
                                <==> slot / 8 == order[j]
  {
    var t := Table(qlen, true, order, within);
    forall x | 8 * j <= x < 8 * j + 8 ensures t[x] / 8 == order[j] {
      EntryInLine(order, within, qlen / 8, x);
    }
    forall slot: nat
      ensures (exists x | 8 * j <= x < 8 * j + 8 :: t[x] == slot) <==> slot / 8 == order[j]
    {
      if slot / 8 == order[j] {
        var x := PlaceInBlock(qlen, order, within, j, slot);
      }
    }
  }

  /** So the ring that main builds is configured, and its remapping is invisible to both threads. */
  lemma {:induction false} RingOverTable(qlen: nat, shuffle: bool, order: seq<nat>, within: seq<seq<nat>>,
                                         sched: seq<Ring.Move>)
    requires 2 <= qlen <= 65536 && Bits.PowerOfTwo(qlen)
    requires shuffle ==> qlen % 8 == 0 && Shuffles(order, within, qlen / 8)
    ensures var t := Table(qlen, shuffle, order, within);
            && Ring.Configured(qlen, t)
            && var a := Ring.Run(Ring.Init(qlen, t), sched);
               var b := Ring.Run(Ring.Init(qlen, seq(qlen, i => i)), sched);
               && a.log == b.log && a.read == b.read && a.write == b.write && a.p == b.p && a.c == b.c
               && (!shuffle ==> a == b)
  {
    if !shuffle {
      PlainTable(qlen, order, within);
    }
    PermutationIff(qlen, shuffle, order, within);
    Ring.RemappingInvisible(qlen, Table(qlen, shuffle, order, within), sched);
  }
}
