/** From the daemon's ioctl to the host: huc_ioctl passes the low 32 bits of a mask to the device,
    whose register write binds every vCPU named in it. Combined with the drain of MaskLog this
    gives the affinity table that a series of logged masks ends in. */
module Affinity {
  import opened Bits
  import opened Wrappers
  import Log = MaskLog

  /** requested_cpu: an int copied from the first four bytes of the 64-bit mask. */
  function Low32(mask: nat): (r: nat)
    ensures r < 0x1_0000_0000 && (mask - r) % 0x1_0000_0000 == 0
  {
    mask % 0x1_0000_0000
  }

  /** Does the host's sched_setaffinity accept this set for this vCPU's thread? */
  type Kernel = (nat, nat) -> bool

  /** Is vCPU v bound by a register write of val? CPU_ISSET_S looks at 8 bytes of set. */
  predicate Hits(kernel: Kernel, v: nat, val: nat) {
    v < 64 && Bit(val, v) && kernel(v, val)
  }

  /** hucdev_bufmmio_write, case 3. table[v] is the CPU set vCPU v is bound to; the loop visits
      vCPUs until qemu_get_cpu returns NULL. */
  method SetAffinity(table: array<nat>, val: nat, kernel: Kernel)
    modifies table
    ensures forall v | 0 <= v < table.Length ::
              table[v] == if v < 64 && And(val, Pow2(v)) != 0 && kernel(v, val) then val else old(table[v])
    ensures table[..] == Written(old(table[..]), val, kernel)
  {
    forall v: nat ensures And(val, Pow2(v)) != 0 <==> Bit(val, v) {
      AndProbe(val, v);
    }
    for v := 0 to table.Length
      invariant forall u | 0 <= u < v :: table[u] == Written(old(table[..]), val, kernel)[u]
      invariant forall u | v <= u < table.Length :: table[u] == old(table[..])[u]
    {
      if v < 64 && Bit(val, v) {
        if kernel(v, val) {
          table[v] := val;
        }
      }
    }
  }

  function Written(table: seq<nat>, val: nat, kernel: Kernel): (t: seq<nat>)
    ensures |t| == |table|
  {
    seq(|table|, v requires 0 <= v < |table| => if Hits(kernel, v, val) then val else table[v])
  }

  /** The table after the daemon's ioctls, in order. */
  function AfterIoctls(table: seq<nat>, ds: seq<Log.Delivery>, kernel: Kernel): (t: seq<nat>)
    ensures |t| == |table|
  {
    if ds == [] then table
    else
      Written(AfterIoctls(table, ds[..|ds| - 1], kernel), Low32(ds[|ds| - 1].mask), kernel)
  }

  /** Does the k-th ioctl bind vCPU v? */
  predicate Binds(ds: seq<Log.Delivery>, k: nat, v: nat, kernel: Kernel)
    requires k < |ds|
  {
    Hits(kernel, v, Low32(ds[k].mask))
  }

  /** The low 32 bits of a mask are kept and the others dropped. */
  lemma LowBits(mask: nat, i: nat)
    ensures Bit(Low32(mask), i) <==> i < 32 && Bit(mask, i)
  {
    Pow2Of32();
    BitOfLow(mask, 32, i);
  }

  /** Exactly which vCPUs an ioctl with a given mask binds: those of the low 32 that the mask names
      and whose binding the host accepts. */
  lemma HitsIff(kernel: Kernel, v: nat, mask: nat)
    ensures Hits(kernel, v, Low32(mask)) <==> v < 32 && Bit(mask, v) && kernel(v, Low32(mask))
  {
    LowBits(mask, v);
  }

  /** Each vCPU ends with the low 32 bits of the last delivered mask that binds it. */
  lemma {:induction false} LastWins(table: seq<nat>, ds: seq<Log.Delivery>, kernel: Kernel, v: nat, k: nat)
    requires v < |table| && k < |ds| && Binds(ds, k, v, kernel)
    requires forall j | k < j < |ds| :: !Binds(ds, j, v, kernel)
    ensures AfterIoctls(table, ds, kernel)[v] == Low32(ds[k].mask)
    ensures forall i: nat :: Bit(AfterIoctls(table, ds, kernel)[v], i) <==> i < 32 && Bit(ds[k].mask, i)
  {
    forall i: nat ensures Bit(Low32(ds[k].mask), i) <==> i < 32 && Bit(ds[k].mask, i) {
      LowBits(ds[k].mask, i);
    }
    if k < |ds| - 1 {
      var before := ds[..|ds| - 1];
      assert !Binds(ds, |ds| - 1, v, kernel);
      forall j | k < j < |before| ensures !Binds(before, j, v, kernel) {
        assert !Binds(ds, j, v, kernel);
      }
      assert Binds(before, k, v, kernel);
      LastWins(table, before, kernel, v, k);
    }
  }

  /** A vCPU that no delivered mask binds keeps its affinity. */
  lemma {:induction false} NoneBinds(table: seq<nat>, ds: seq<Log.Delivery>, kernel: Kernel, v: nat)
    requires v < |table| && forall j | 0 <= j < |ds| :: !Binds(ds, j, v, kernel)
    ensures AfterIoctls(table, ds, kernel)[v] == table[v]
  {
    if ds != [] {
      var before := ds[..|ds| - 1];
      assert !Binds(ds, |ds| - 1, v, kernel);
      forall j | 0 <= j < |before| ensures !Binds(before, j, v, kernel) {
        assert !Binds(ds, j, v, kernel);
      }
      NoneBinds(table, before, kernel, v);
    }
  }

  // ---------------------------------------------------------------- after a quiet drain

  /** Would the mask logged at key j bind vCPU v? */
  predicate KeyHits(cells: seq<nat>, j: nat, v: nat, kernel: Kernel)
    requires j < |cells|
  {
    Hits(kernel, v, Low32(cells[j]))
  }

  lemma ZeroHitsNothing(kernel: Kernel, v: nat)
    ensures !Hits(kernel, v, Low32(0))
  {
    BitOfZero(v);
  }

  lemma IoctlSnoc(table: seq<nat>, ds: seq<Log.Delivery>, d: Log.Delivery, kernel: Kernel)
    ensures AfterIoctls(table, ds + [d], kernel) ==
              Written(AfterIoctls(table, ds, kernel), Low32(d.mask), kernel)
  {
    assert (ds + [d])[..|ds|] == ds;
  }

  /** Two series of ioctls that have met stay together. */
  lemma SameIoctl(t: seq<nat>, a: seq<Log.Delivery>, u: seq<nat>, b: seq<Log.Delivery>, d: Log.Delivery,
                  kernel: Kernel)
    requires AfterIoctls(t, a, kernel) == AfterIoctls(u, b, kernel)
    ensures AfterIoctls(t, a + [d], kernel) == AfterIoctls(u, b + [d], kernel)
  {
    IoctlSnoc(t, a, d, kernel);
    IoctlSnoc(u, b, d, kernel);
  }

  lemma {:induction false} AppendIoctls(table: seq<nat>, a: seq<Log.Delivery>, b: seq<Log.Delivery>, kernel: Kernel)
    ensures AfterIoctls(table, a + b, kernel) == AfterIoctls(AfterIoctls(table, a, kernel), b, kernel)
  {
    if b == [] {
      assert a + b == a;
    } else {
      var before, last := b[..|b| - 1], b[|b| - 1];
      assert b == before + [last];
      assert a + b == a + before + [last];
      AppendIoctls(table, a, before, kernel);
      SameIoctl(table, a + before, AfterIoctls(table, a, kernel), before, last, kernel);
    }
  }

  lemma OneIoctl(table: seq<nat>, d: Log.Delivery, kernel: Kernel)
    ensures AfterIoctls(table, [d], kernel) == Written(table, Low32(d.mask), kernel)
  {
    assert [d][..0] == [];
    assert AfterIoctls(table, [], kernel) == table;
  }

  /** Draining keys i..1 is draining key i, then the rest. */
  lemma DrainTop(table: seq<nat>, cells: seq<nat>, i: nat, v: nat, kernel: Kernel) returns (next: seq<nat>)
    requires 1 <= i < |cells| && v < |table|
    ensures |next| == |table|
    ensures next[v] == if KeyHits(cells, i, v, kernel) then Low32(cells[i]) else table[v]
    ensures AfterIoctls(table, Log.Descending(cells, i), kernel) ==
            AfterIoctls(next, Log.Descending(cells, i - 1), kernel)
  {
    var head := if cells[i] != 0 then [Log.Delivery(i, cells[i])] else [];
    next := AfterIoctls(table, head, kernel);
    AppendIoctls(table, head, Log.Descending(cells, i - 1), kernel);
    if cells[i] != 0 {
      OneIoctl(table, Log.Delivery(i, cells[i]), kernel);
    } else {
      ZeroHitsNothing(kernel, v);
    }
  }

  ghost predicate NoKeyHits(cells: seq<nat>, lo: nat, hi: nat, v: nat, kernel: Kernel)
    requires hi <= |cells|
  {
    forall j | lo <= j < hi :: !KeyHits(cells, j, v, kernel)
  }

  lemma {:induction false} DescendingMiss(table: seq<nat>, cells: seq<nat>, i: nat, v: nat, kernel: Kernel)
    requires i < |cells| && v < |table| && NoKeyHits(cells, 1, i + 1, v, kernel)
    ensures AfterIoctls(table, Log.Descending(cells, i), kernel)[v] == table[v]
    decreases i
  {
    if i > 0 {
      var next := DrainTop(table, cells, i, v, kernel);
      DescendingMiss(next, cells, i - 1, v, kernel);
    }
  }

  /** Draining keys i..1 binds v to the mask at the smallest key that hits it. */
  lemma {:induction false} DescendingHit(table: seq<nat>, cells: seq<nat>, i: nat, v: nat,
                                         kernel: Kernel, j: nat)
    requires 1 <= j <= i < |cells| && v < |table|
    requires KeyHits(cells, j, v, kernel) && NoKeyHits(cells, 1, j, v, kernel)
    ensures AfterIoctls(table, Log.Descending(cells, i), kernel)[v] == Low32(cells[j])
    decreases i
  {
    var next := DrainTop(table, cells, i, v, kernel);
    if i == j {
      DescendingMiss(next, cells, i - 1, v, kernel);
    } else {
      DescendingHit(next, cells, i - 1, v, kernel, j);
    }
  }

  /** A pass with a non-empty log is the spurious delivery of the count, then keys 63..1. */
  lemma {:induction false} PassIs(table: seq<nat>, cells: seq<nat>, kernel: Kernel)
    requires |cells| == 64 && cells[0] != 0
    ensures AfterIoctls(table, Log.Deliveries(cells), kernel) ==
            AfterIoctls(Written(table, Low32(cells[0]), kernel), Log.Descending(cells, 63), kernel)
  {
    var count := Log.Delivery(64, cells[0]);
    OneIoctl(table, count, kernel);
    AppendIoctls(table, [count], Log.Descending(cells, 63), kernel);
  }

  /** The affinity table after one quiet pass. Delivery runs from the newest entry to the oldest,
      so the oldest logged mask that binds v wins. */
  lemma {:induction false} OldestWins(table: seq<nat>, cells: seq<nat>, v: nat, kernel: Kernel, j: nat)
    requires |cells| == 64 && v < |table| && cells[0] != 0 && 1 <= j < 64
    requires KeyHits(cells, j, v, kernel) && NoKeyHits(cells, 1, j, v, kernel)
    ensures AfterIoctls(table, Log.Deliveries(cells), kernel)[v] == Low32(cells[j])
  {
    PassIs(table, cells, kernel);
    DescendingHit(Written(table, Low32(cells[0]), kernel), cells, 63, v, kernel, j);
  }

  /** If no logged mask binds v, the spurious delivery of the count decides; if that does not bind
      v either, v is left alone. */
  lemma {:induction false} CountWinsOtherwise(table: seq<nat>, cells: seq<nat>, v: nat, kernel: Kernel)
    requires |cells| == 64 && v < |table| && cells[0] != 0
    requires NoKeyHits(cells, 1, 64, v, kernel)
    ensures AfterIoctls(table, Log.Deliveries(cells), kernel)[v] ==
              if KeyHits(cells, 0, v, kernel) then Low32(cells[0]) else table[v]
  {
    PassIs(table, cells, kernel);
    DescendingMiss(Written(table, Low32(cells[0]), kernel), cells, 63, v, kernel);
  }

  /** vCPUs from 32 on keep their affinity, whatever is delivered. */
  lemma HighUntouched(table: seq<nat>, ds: seq<Log.Delivery>, v: nat, kernel: Kernel)
    requires 32 <= v < |table|
    ensures AfterIoctls(table, ds, kernel)[v] == table[v]
  {
    forall j: nat | j < |ds| ensures !Binds(ds, j, v, kernel) {
      HitsIff(kernel, v, ds[j].mask);
    }
    NoneBinds(table, ds, kernel, v);
  }

  /** The log after the kprobe has seen the given masks, starting from an empty map. */
  function Logged(masks: seq<nat>): (cells: seq<nat>)
    ensures |cells| == 64
  {
    if masks == [] then Log.Boot().cells
    else Log.Pushed(Logged(masks[..|masks| - 1]), masks[|masks| - 1])
  }

  /** The log keeps the first 63 masks, in order, from key 1 on, and counts them. */
  lemma {:induction false} LoggedIs(masks: seq<nat>)
    ensures var n := if |masks| < 63 then |masks| else 63;
            && Logged(masks)[0] == n
            && forall j | 1 <= j < 64 :: Logged(masks)[j] == if j <= n then masks[j - 1] else 0
  {
    if masks != [] {
      LoggedIs(masks[..|masks| - 1]);
    }
  }

  lemma LoggedAt(masks: seq<nat>, h: nat)
    requires h < |masks| && h < 63
    ensures Logged(masks)[h + 1] == masks[h] && Logged(masks)[0] != 0
  {
    LoggedIs(masks);
  }

  /** One pass over an empty map filled by the given masks: the first of the first 63 whose low 32
      bits bind vCPU v decides its affinity. */
  lemma {:induction false} FirstRequestWins(table: seq<nat>, masks: seq<nat>, v: nat, kernel: Kernel, k: nat)
    requires v < |table| && k < |masks| && k < 63
    requires Hits(kernel, v, Low32(masks[k]))
    requires forall h | 0 <= h < k :: !Hits(kernel, v, Low32(masks[h]))
    ensures AfterIoctls(table, Log.Deliveries(Logged(masks)), kernel)[v] == Low32(masks[k])
  {
    var cells := Logged(masks);
    LoggedAt(masks, k);
    forall h: nat | 1 <= h < k + 1 ensures !KeyHits(cells, h, v, kernel) {
      LoggedAt(masks, h - 1);
    }
    OldestWins(table, cells, v, kernel, k + 1);
  }

  // ---------------------------------------------------------------- whole quiet runs

  /** The masks a run pushes, cut where the daemon starts a pass: one batch for each pass started,
      and the masks pushed since. */
  datatype Batches = Batches(closed: seq<seq<nat>>, open: seq<nat>)

  function Split(moves: seq<Log.Move>): Batches {
    if moves == [] then Batches([], [])
    else
      var before := moves[..|moves| - 1];
      var b := Split(before);
      match moves[|moves| - 1]
      case Push(mask) => b.(open := b.open + [mask])
      case Drain =>
        if Log.Run(Log.Boot(), before).pc.Idle? then Batches(b.closed + [b.open], []) else b
  }

  /** The place of the first mask that binds vCPU v, or |masks|. */
  function FirstHit(masks: seq<nat>, v: nat, kernel: Kernel): (k: nat)
    ensures k <= |masks|
    ensures k < |masks| ==> Hits(kernel, v, Low32(masks[k]))
    ensures forall h | 0 <= h < k :: !Hits(kernel, v, Low32(masks[h]))
  {
    if masks == [] || Hits(kernel, v, Low32(masks[0])) then 0
    else 1 + FirstHit(masks[1..], v, kernel)
  }

  /** The masks of a batch that the log has room for. */
  function Kept(masks: seq<nat>): seq<nat> {
    if |masks| <= 63 then masks else masks[..63]
  }

  /** What a batch asks for vCPU v: its first binding mask; failing that, the number of masks kept,
      which is delivered as if it were one; failing that, nothing. */
  function Request(masks: seq<nat>, v: nat, kernel: Kernel): Option<nat> {
    var kept := Kept(masks);
    var k := FirstHit(kept, v, kernel);
    if k < |kept| then Some(Low32(kept[k]))
    else if Hits(kernel, v, |kept|) then Some(|kept|) else None
  }

  /** The last batch that asks for anything decides. */
  function Decided(was: nat, closed: seq<seq<nat>>, v: nat, kernel: Kernel): nat {
    if closed == [] then was
    else
      var last := Request(closed[|closed| - 1], v, kernel);
      if last.Some? then last.value else Decided(was, closed[..|closed| - 1], v, kernel)
  }

  /** The passes' deliveries, one batch after the other. */
  function AllDeliveries(closed: seq<seq<nat>>): seq<Log.Delivery> {
    if closed == [] then []
    else AllDeliveries(closed[..|closed| - 1]) + Log.Deliveries(Logged(closed[|closed| - 1]))
  }

  /** If no kept mask binds v, no key of the log does. */
  lemma NoLoggedHit(masks: seq<nat>, v: nat, kernel: Kernel)
    requires FirstHit(Kept(masks), v, kernel) == |Kept(masks)|
    ensures NoKeyHits(Logged(masks), 1, 64, v, kernel)
  {
    var cells, kept := Logged(masks), Kept(masks);
    LoggedIs(masks);
    ZeroHitsNothing(kernel, v);
    forall h: nat | 1 <= h < 64 ensures !KeyHits(cells, h, v, kernel) {
      if h <= |kept| {
        assert cells[h] == kept[h - 1];
      } else {
        assert cells[h] == 0;
      }
    }
  }

  lemma {:induction false} BatchHit(table: seq<nat>, masks: seq<nat>, v: nat, kernel: Kernel)
    requires v < |table|
    ensures var k := FirstHit(Kept(masks), v, kernel);
            k < |Kept(masks)| ==>
              AfterIoctls(table, Log.Deliveries(Logged(masks)), kernel)[v] == Low32(Kept(masks)[k])
  {
    var kept := Kept(masks);
    var k := FirstHit(kept, v, kernel);
    if k < |kept| {
      forall h: nat | h < k ensures !Hits(kernel, v, Low32(masks[h])) {
        assert masks[h] == kept[h];
      }
      FirstRequestWins(table, masks, v, kernel, k);
    }
  }

  lemma KeptCount(masks: seq<nat>)
    ensures Logged(masks)[0] == |Kept(masks)| == Low32(|Kept(masks)|)
    ensures masks == [] <==> |Kept(masks)| == 0
  {
    LoggedIs(masks);
  }

  lemma {:induction false} BatchCount(table: seq<nat>, masks: seq<nat>, v: nat, kernel: Kernel)
    requires v < |table| && FirstHit(Kept(masks), v, kernel) == |Kept(masks)|
    ensures var n := |Kept(masks)|;
            AfterIoctls(table, Log.Deliveries(Logged(masks)), kernel)[v] ==
              if Hits(kernel, v, n) then n else table[v]
  {
    KeptCount(masks);
    if masks == [] {
      ZeroHitsNothing(kernel, v);
    } else {
      NoLoggedHit(masks, v, kernel);
      CountWinsOtherwise(table, Logged(masks), v, kernel);
    }
  }

  lemma {:induction false} OneBatch(table: seq<nat>, masks: seq<nat>, v: nat, kernel: Kernel)
    requires v < |table|
    ensures AfterIoctls(table, Log.Deliveries(Logged(masks)), kernel)[v] ==
              (var r := Request(masks, v, kernel); if r.Some? then r.value else table[v])
  {
    if FirstHit(Kept(masks), v, kernel) < |Kept(masks)| {
      BatchHit(table, masks, v, kernel);
    } else {
      BatchCount(table, masks, v, kernel);
    }
  }

  lemma {:induction false} AllBatches(table: seq<nat>, closed: seq<seq<nat>>, v: nat, kernel: Kernel)
    requires v < |table|
    ensures AfterIoctls(table, AllDeliveries(closed), kernel)[v] == Decided(table[v], closed, v, kernel)
  {
    if closed != [] {
      var before, last := closed[..|closed| - 1], closed[|closed| - 1];
      AllBatches(table, before, v, kernel);
      AppendIoctls(table, AllDeliveries(before), Log.Deliveries(Logged(last)), kernel);
      var mid := AfterIoctls(table, AllDeliveries(before), kernel);
      OneBatch(mid, last, v, kernel);
    }
  }

  /** In a quiet run each pass delivers its own batch, and the map holds the masks pushed since. */
  ghost predicate QuietRunOk(s: Log.State, b: Batches)
    requires Log.WellFormed(s)
  {
    && Log.DrainOut(s).delivered == AllDeliveries(b.closed)
    && Log.DrainOut(s).cells == Logged(b.open)
    && (!s.pc.Idle? ==> b.open == [])
  }

  lemma QuietDrain(s: Log.State, b: Batches)
    requires Log.WellFormed(s) && QuietRunOk(s, b)
    ensures QuietRunOk(Log.DrainStep(s), if s.pc.Idle? then Batches(b.closed + [b.open], []) else b)
  {
    if s.pc.Idle? {
      Log.QuietPass(s);
      LoggedIs(b.open);
      assert (b.closed + [b.open])[..|b.closed|] == b.closed;
    }
  }

  lemma QuietPush(s: Log.State, b: Batches, mask: nat)
    requires Log.WellFormed(s) && QuietRunOk(s, b) && s.pc.Idle?
    ensures QuietRunOk(Log.PushStep(s, mask), b.(open := b.open + [mask]))
  {
    assert (b.open + [mask])[..|b.open|] == b.open;
  }

  lemma {:induction false} QuietRun(moves: seq<Log.Move>)
    requires Log.Quiet(Log.Boot(), moves)
    ensures QuietRunOk(Log.Run(Log.Boot(), moves), Split(moves))
  {
    if moves != [] {
      var before := moves[..|moves| - 1];
      QuietRun(before);
      var s := Log.Run(Log.Boot(), before);
      match moves[|moves| - 1] {
        case Push(mask) => QuietPush(s, Split(before), mask);
        case Drain => QuietDrain(s, Split(before));
      }
    }
  }

  /** End to end, over any run whose kprobe hits fall between passes, with any number of passes:
      once the daemon is idle the last pass whose batch asks anything of vCPU v has decided its
      affinity, and within the batch the oldest binding mask. */
  lemma {:induction false} LastPassOldestRequest(table: seq<nat>, moves: seq<Log.Move>, v: nat, kernel: Kernel)
    requires v < |table| && Log.Quiet(Log.Boot(), moves)
    ensures var s := Log.Run(Log.Boot(), moves);
            s.pc.Idle? ==> AfterIoctls(table, s.delivered, kernel)[v] ==
                             Decided(table[v], Split(moves).closed, v, kernel)
  {
    QuietRun(moves);
    AllBatches(table, Split(moves).closed, v, kernel);
  }
}
