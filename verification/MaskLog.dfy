/** The log of affinity masks shared by the kprobe program and the daemon: a BPF array map whose
    key 0 holds the number of masks and keys 1..63 the masks. Each BPF call of the daemon's drain
    is one step, and kprobe hits (atomic as a whole) may fall between any two of them. */
module MaskLog {

  /** Where the daemon stands: before looking up key 0, before looking up key i, before the ioctl
      for key i, before clearing key i, before writing `value` back to key 0. */
  datatype DrainPc = Idle | Lookup(i: nat) | Ioctl(i: nat) | Clear(i: nat) | Reset

  /** One ioctl: the key being drained, and the mask passed. */
  datatype Delivery = Delivery(key: nat, mask: nat)

  /** cells, pc and value are the program's state. The rest is history: the ioctls made, the non-zero
      masks recorded by pushes, those a later push wrote over while they waited in the map, those
      the daemon cleared unseen, and the key whose current entry the daemon has already read
      (64 if there is none). */
  datatype State = State(cells: seq<nat>, pc: DrainPc, value: nat, delivered: seq<Delivery>,
                         recorded: multiset<nat>, overwritten: multiset<nat>,
                         erased: multiset<nat>, claimed: nat)

  datatype Move = Push(mask: nat) | Drain

  /** A mask as a bag; zero masks are never delivered. */
  function One(mask: nat): multiset<nat> {
    if mask == 0 then multiset{} else multiset{mask}
  }

  predicate WellFormed(s: State) {
    && |s.cells| == 64
    && (s.pc.Lookup? || s.pc.Ioctl? || s.pc.Clear? ==> 1 <= s.pc.i <= 64)
  }

  /** bpf_prog1 on the map: drop the mask if the log is full, else count it and store it at the
      new count. (An update past the last key fails.) */
  function Pushed(cells: seq<nat>, mask: nat): (c: seq<nat>)
    requires |cells| == 64
    ensures |c| == 64
  {
    if cells[0] == 63 then cells
    else
      var top := cells[0] + 1;
      var counted := cells[0 := top];
      if top < 64 then counted[top := mask] else counted
  }

  function PushStep(s: State, mask: nat): (t: State)
    requires WellFormed(s)
    ensures WellFormed(t)
  {
    var t := s.(cells := Pushed(s.cells, mask));
    var top := s.cells[0] + 1;
    if top >= 64 then t
    else
      t.(recorded := s.recorded + One(mask),
         overwritten := s.overwritten + (if top == s.claimed then multiset{} else One(s.cells[top])),
         claimed := if top == s.claimed then 64 else s.claimed)
  }

  /** The loop `for (i = MAX_CPU; i > 0; i--)`. */
  function Next(i: nat): DrainPc {
    if i <= 1 then Reset else Lookup(i - 1)
  }

  function DrainStep(s: State): (t: State)
    requires WellFormed(s)
    ensures WellFormed(t)
  {
    match s.pc
    case Idle =>
      s.(value := s.cells[0], pc := if s.cells[0] != 0 then Lookup(64) else Idle)
    case Lookup(i) =>
      // Key 64 is not in the map: the call fails and leaves value alone.
      var value := if i < 64 then s.cells[i] else s.value;
      if value == 0 then s.(value := value, pc := Next(i))
      else s.(value := value, pc := Ioctl(i), claimed := i)
    case Ioctl(i) =>
      s.(delivered := s.delivered + [Delivery(i, s.value)], value := 0, pc := Clear(i))
    case Clear(i) =>
      var t := s.(pc := Next(i), claimed := 64);
      if i >= 64 then t
      else
        t.(cells := s.cells[i := s.value],
           erased := s.erased + if s.claimed == i then multiset{} else One(s.cells[i]))
    case Reset => s.(cells := s.cells[0 := s.value], pc := Idle)
  }

  function Step(s: State, move: Move): (t: State)
    requires WellFormed(s)
    ensures WellFormed(t)
  {
    match move
    case Push(mask) => PushStep(s, mask)
    case Drain => DrainStep(s)
  }

  function Run(s: State, moves: seq<Move>): (t: State)
    requires WellFormed(s)
    ensures WellFormed(t)
  {
    if moves == [] then s
    else Step(Run(s, moves[..|moves| - 1]), moves[|moves| - 1])
  }

  function Boot(): (s: State)
    ensures WellFormed(s)
  {
    State(seq(64, _ => 0), Idle, 0, [], multiset{}, multiset{}, multiset{}, 64)
  }

  // ---------------------------------------------------------------- conservation

  /** 1 if the mask is x. */
  function Is(mask: nat, x: nat): nat {
    if mask == x then 1 else 0
  }

  /** How often x was delivered from a real key; key 64 only repeats the count. */
  function Delivered(ds: seq<Delivery>, x: nat): nat {
    if ds == [] then 0
    else
      var d := ds[|ds| - 1];
      Delivered(ds[..|ds| - 1], x) + if d.key < 64 then Is(d.mask, x) else 0
  }

  /** How often x waits in keys 1..n-1 of the map, leaving out key skip. */
  function Waiting(cells: seq<nat>, skip: nat, n: nat, x: nat): nat
    requires n <= |cells|
  {
    if n <= 1 then 0
    else Waiting(cells, skip, n - 1, x) + if n - 1 == skip then 0 else Is(cells[n - 1], x)
  }

  /** Is x the mask read by the last lookup and not yet passed to the ioctl? */
  function InFlight(s: State, x: nat): nat {
    if s.pc.Ioctl? && s.pc.i < 64 then Is(s.value, x) else 0
  }

  ghost predicate Balanced(s: State, x: nat)
    requires WellFormed(s)
  {
    s.recorded[x] == Delivered(s.delivered, x) + InFlight(s, x) + Waiting(s.cells, s.claimed, 64, x)
                     + s.overwritten[x] + s.erased[x]
  }

  /** The daemon has looked up a real key and not yet cleared it. */
  predicate KeyOpen(s: State) {
    (s.pc.Ioctl? || s.pc.Clear?) && s.pc.i < 64
  }

  ghost predicate ControlOk(s: State) {
    && WellFormed(s)
    && s.cells[0] <= 63
    && 1 <= s.claimed <= 64
    && (s.claimed < 64 ==> (s.pc.Ioctl? || s.pc.Clear?) && s.pc.i == s.claimed)
    && (s.pc.Ioctl? ==> s.value != 0)
    && (s.pc.Clear? || s.pc.Reset? ==> s.value == 0)
    && (KeyOpen(s) && s.claimed != s.pc.i ==> s.cells[0] >= s.pc.i)
  }

  ghost predicate Inv(s: State, x: nat) {
    ControlOk(s) && Balanced(s, x)
  }

  lemma {:induction false} WaitingUpdate(cells: seq<nat>, skip: nat, n: nat, i: nat, v: nat, x: nat)
    requires i < |cells| && n <= |cells|
    ensures var d := if 1 <= i < n && i != skip then Is(v, x) - Is(cells[i], x) else 0;
            Waiting(cells[i := v], skip, n, x) == Waiting(cells, skip, n, x) + d
  {
    if n > 1 {
      WaitingUpdate(cells, skip, n - 1, i, v, x);
    }
  }

  /** Leaving out key i takes its mask out of the count. */
  lemma {:induction false} WaitingSkip(cells: seq<nat>, i: nat, n: nat, x: nat)
    requires 1 <= i && n <= 64 <= |cells|
    ensures var d := if i < n then Is(cells[i], x) else 0;
            Waiting(cells, i, n, x) + d == Waiting(cells, 64, n, x)
  {
    if n > 1 {
      WaitingSkip(cells, i, n - 1, x);
    }
  }

  lemma DeliveredSnoc(ds: seq<Delivery>, d: Delivery, x: nat)
    ensures Delivered(ds + [d], x) == Delivered(ds, x) + if d.key < 64 then Is(d.mask, x) else 0
  {
    assert (ds + [d])[..|ds|] == ds;
  }

  lemma PushBalance(s: State, mask: nat, x: nat)
    requires Inv(s, x) && x != 0
    ensures Inv(PushStep(s, mask), x)
  {
    if s.cells[0] != 63 {
      PushWaiting(s.cells, s.claimed, mask, 64, x);
    }
  }

  /** A push onto the claimed key makes its entry a waiting one; any other push replaces one. */
  lemma PushWaiting(cells: seq<nat>, claimed: nat, mask: nat, n: nat, x: nat)
    requires |cells| == 64 && cells[0] < 63 && 1 <= claimed <= 64 && n <= 64
    ensures var top := cells[0] + 1;
            Waiting(Pushed(cells, mask), if top == claimed then 64 else claimed, n, x) ==
              Waiting(cells, claimed, n, x)
              + if top >= n then 0 else Is(mask, x) - if top == claimed then 0 else Is(cells[top], x)
  {
    var top := cells[0] + 1;
    var counted := cells[0 := top];
    WaitingUpdate(cells, claimed, n, 0, top, x);
    WaitingUpdate(counted, claimed, n, top, mask, x);
    WaitingSkip(counted[top := mask], claimed, n, x);
  }

  lemma ClearBalance(s: State, x: nat)
    requires Inv(s, x) && s.pc.Clear? && x != 0
    ensures Inv(DrainStep(s), x)
  {
    var i := s.pc.i;
    if i < 64 {
      WaitingUpdate(s.cells, 64, 64, i, 0, x);
      WaitingSkip(s.cells, s.claimed, 64, x);
    }
  }

  lemma DrainBalance(s: State, x: nat)
    requires Inv(s, x) && x != 0
    ensures Inv(DrainStep(s), x)
  {
    match s.pc {
      case Idle =>
      case Lookup(i) => WaitingSkip(s.cells, i, 64, x);
      case Ioctl(i) => DeliveredSnoc(s.delivered, Delivery(i, s.value), x);
      case Clear(i) => ClearBalance(s, x);
      case Reset => WaitingUpdate(s.cells, s.claimed, 64, 0, 0, x);
    }
  }

  lemma {:induction false} RunInv(s: State, moves: seq<Move>, x: nat)
    requires Inv(s, x) && x != 0
    ensures Inv(Run(s, moves), x)
  {
    if moves != [] {
      var before := Run(s, moves[..|moves| - 1]);
      RunInv(s, moves[..|moves| - 1], x);
      match moves[|moves| - 1] {
        case Push(mask) => PushBalance(before, mask, x);
        case Drain => DrainBalance(before, x);
      }
    }
  }

  lemma {:induction false} NothingWaits(n: nat, x: nat)
    requires n <= 64 && x != 0
    ensures Waiting(seq(64, _ => 0), 64, n, x) == 0
  {
    if n > 1 {
      NothingWaits(n - 1, x);
    }
  }

  lemma BootInv(x: nat)
    requires x != 0
    ensures Inv(Boot(), x)
  {
    NothingWaits(64, x);
  }

  /** Conservation: in every run every recorded mask is, once for each time it was recorded,
      delivered, on its way to the ioctl, still in the map, written over by a later push while it
      waited, or cleared unseen by the daemon. */
  lemma {:induction false} Conservation(moves: seq<Move>, x: nat)
    requires x != 0
    ensures var s := Run(Boot(), moves);
            s.recorded[x] == Delivered(s.delivered, x) + InFlight(s, x)
                             + Waiting(s.cells, s.claimed, 64, x) + s.overwritten[x] + s.erased[x]
  {
    BootInv(x);
    RunInv(Boot(), moves, x);
  }

  /** In every run, kprobe hits anywhere, the count stays within the log and the daemon writes 0
      back to key 0. */
  lemma {:induction false} WritesBackZero(moves: seq<Move>)
    ensures var s := Run(Boot(), moves);
            && s.cells[0] <= 63
            && (s.pc.Reset? ==> DrainStep(s).cells == s.cells[0 := 0])
  {
    BootInv(1);
    RunInv(Boot(), moves, 1);
  }

  // ---------------------------------------------------------------- when masks are lost

  /** A mask logged now would go to the very key the daemon is about to clear. */
  predicate WouldBeLost(s: State)
    requires WellFormed(s)
  {
    KeyOpen(s) && s.cells[0] + 1 == s.pc.i
  }

  /** The non-zero masks pushed at moments when WouldBeLost holds. */
  function LostPushes(s: State, moves: seq<Move>): multiset<nat>
    requires WellFormed(s)
  {
    if moves == [] then multiset{}
    else
      var before, last := moves[..|moves| - 1], moves[|moves| - 1];
      LostPushes(s, before)
      + if last.Push? && WouldBeLost(Run(s, before)) then One(last.mask) else multiset{}
  }

  /** A mask that sits in the open key unread: the coming update will clear it. */
  function AboutToBeErased(s: State): multiset<nat>
    requires WellFormed(s)
  {
    if KeyOpen(s) && s.claimed != s.pc.i then One(s.cells[s.pc.i]) else multiset{}
  }

  lemma PushErases(s: State, mask: nat)
    requires ControlOk(s)
    ensures var t := PushStep(s, mask);
            && ControlOk(t) && t.erased == s.erased
            && AboutToBeErased(t) == AboutToBeErased(s) + if WouldBeLost(s) then One(mask) else multiset{}
  {
    var t := PushStep(s, mask);
    assert ControlOk(t);
    if WouldBeLost(s) {
      assert s.claimed == s.pc.i && t.claimed == 64;
      assert AboutToBeErased(s) == multiset{} && AboutToBeErased(t) == One(mask);
    } else if KeyOpen(s) {
      assert t.cells[s.pc.i] == s.cells[s.pc.i];
      assert (s.claimed != s.pc.i) == (t.claimed != s.pc.i);
    }
  }

  lemma DrainErases(s: State)
    requires ControlOk(s)
    ensures var t := DrainStep(s);
            && ControlOk(t)
            && t.erased + AboutToBeErased(t) == s.erased + AboutToBeErased(s)
  {
    var t := DrainStep(s);
    if KeyOpen(s) && s.pc.Clear? {
      assert AboutToBeErased(t) == multiset{};
    } else {
      assert t.erased == s.erased && t.cells[1..] == s.cells[1..];
      if KeyOpen(s) {
        assert t.cells[s.pc.i] == s.cells[s.pc.i];
      }
    }
  }

  lemma {:induction false} ErasedFrom(s: State, moves: seq<Move>)
    requires ControlOk(s)
    ensures var t := Run(s, moves);
            && ControlOk(t)
            && t.erased + AboutToBeErased(t) == s.erased + AboutToBeErased(s) + LostPushes(s, moves)
  {
    if moves != [] {
      var before := Run(s, moves[..|moves| - 1]);
      ErasedFrom(s, moves[..|moves| - 1]);
      ErasedStep(before, moves[|moves| - 1]);
    }
  }

  lemma ErasedStep(s: State, move: Move)
    requires ControlOk(s)
    ensures var t := Step(s, move);
            && ControlOk(t)
            && t.erased + AboutToBeErased(t) ==
               s.erased + AboutToBeErased(s)
               + (if move.Push? && WouldBeLost(s) then One(move.mask) else multiset{})
  {
    match move {
      case Push(mask) => PushErases(s, mask);
      case Drain => DrainErases(s);
    }
  }

  /** Exactly which masks the daemon clears unseen: in every run they are, together with the one
      whose clearing is still to come, the non-zero masks pushed between the daemon's lookup and
      its update of a key while that key was the next one of the log. */
  lemma {:induction false} ErasedExactly(moves: seq<Move>)
    ensures var s := Run(Boot(), moves);
            s.erased + AboutToBeErased(s) == LostPushes(Boot(), moves)
  {
    ErasedFrom(Boot(), moves);
  }

  /** Every kprobe hit falls between two iterations of the drain loop (or between passes). */
  ghost predicate BetweenIterations(s: State, moves: seq<Move>)
    requires WellFormed(s)
  {
    moves != [] ==>
      var before := moves[..|moves| - 1];
      BetweenIterations(s, before) && (moves[|moves| - 1].Push? ==> !KeyOpen(Run(s, before)))
  }

  lemma {:induction false} NoLostPushes(s: State, moves: seq<Move>)
    requires WellFormed(s) && BetweenIterations(s, moves)
    ensures LostPushes(s, moves) == multiset{}
  {
    if moves != [] {
      NoLostPushes(s, moves[..|moves| - 1]);
    }
  }

  /** If kprobe hits fall only between iterations, nothing is cleared unseen: every recorded mask
      is delivered, on its way to the ioctl, still in the map, or overwritten by a later push. */
  lemma {:induction false} ConservedBetweenIterations(moves: seq<Move>, x: nat)
    requires x != 0 && BetweenIterations(Boot(), moves)
    ensures var s := Run(Boot(), moves);
            && s.erased == multiset{}
            && s.recorded[x] == Delivered(s.delivered, x) + InFlight(s, x)
                                + Waiting(s.cells, s.claimed, 64, x) + s.overwritten[x]
  {
    var s := Run(Boot(), moves);
    ErasedExactly(moves);
    NoLostPushes(Boot(), moves);
    assert s.erased <= s.erased + AboutToBeErased(s) == multiset{};
    Conservation(moves, x);
  }

  // ---------------------------------------------------------------- pushes ahead of the drain

  /** A mask logged now would go to a key that the running pass has already read. */
  predicate Behind(s: State)
    requires WellFormed(s)
  {
    s.cells[0] < 63 &&
    match s.pc
    case Idle => false
    case Lookup(i) => s.cells[0] + 1 > i
    case Ioctl(i) => s.cells[0] + 1 >= i
    case Clear(i) => s.cells[0] + 1 >= i
    case Reset => true
  }

  /** No kprobe hit logs a mask behind the drain. */
  ghost predicate NeverBehind(s: State, moves: seq<Move>)
    requires WellFormed(s)
  {
    moves != [] ==>
      var before := moves[..|moves| - 1];
      NeverBehind(s, before) && (moves[|moves| - 1].Push? ==> !Behind(Run(s, before)))
  }

  /** Keys from lo on are empty. */
  ghost predicate EmptyFrom(cells: seq<nat>, lo: nat) {
    forall j | lo <= j < |cells| :: cells[j] == 0
  }

  ghost predicate AheadInv(s: State) {
    && ControlOk(s)
    && s.overwritten == multiset{} && s.erased == multiset{}
    && (s.pc.Ioctl? || s.pc.Clear? ==> s.claimed == s.pc.i)
    && EmptyFrom(s.cells, s.cells[0] + 1)
    && match s.pc
       case Idle => true
       case Reset => EmptyFrom(s.cells, 1)
       case Lookup(i) => EmptyFrom(s.cells, i + 1)
       case Ioctl(i) => EmptyFrom(s.cells, i + 1)
       case Clear(i) => EmptyFrom(s.cells, i + 1)
  }

  lemma AheadPush(s: State, mask: nat)
    requires AheadInv(s) && !Behind(s)
    ensures AheadInv(PushStep(s, mask))
  {
  }

  lemma AheadDrain(s: State)
    requires AheadInv(s)
    ensures AheadInv(DrainStep(s))
  {
  }

  lemma {:induction false} AheadRunInv(s: State, moves: seq<Move>)
    requires AheadInv(s) && NeverBehind(s, moves)
    ensures AheadInv(Run(s, moves))
  {
    if moves != [] {
      var before := Run(s, moves[..|moves| - 1]);
      AheadRunInv(s, moves[..|moves| - 1]);
      match moves[|moves| - 1] {
        case Push(mask) => AheadPush(before, mask);
        case Drain => AheadDrain(before);
      }
    }
  }

  /** If no mask is logged at a key the running pass has already read, nothing is lost, even with
      kprobe hits in the middle of a pass: whenever the daemon is between passes with an empty
      log, every mask recorded so far has been delivered, and the map is all zero. */
  lemma {:induction false} AheadLosesNothing(moves: seq<Move>, x: nat)
    requires x != 0 && NeverBehind(Boot(), moves)
    ensures var s := Run(Boot(), moves);
            && s.overwritten == s.erased == multiset{}
            && (s.pc.Idle? && s.cells[0] == 0 ==>
                  s.recorded[x] == Delivered(s.delivered, x) && s.cells == Boot().cells)
  {
    var s := Run(Boot(), moves);
    AheadRunInv(Boot(), moves);
    Conservation(moves, x);
    BootInv(x);
    RunInv(Boot(), moves, x);
    if s.pc.Idle? && s.cells[0] == 0 {
      NothingWaits(64, x);
      assert s.cells == Boot().cells;
    }
  }

  // ---------------------------------------------------------------- pushes behind the drain

  /** The non-zero masks logged at keys that the running pass has already read. */
  function BehindPushes(s: State, moves: seq<Move>): multiset<nat>
    requires WellFormed(s)
  {
    if moves == [] then multiset{}
    else
      var before, last := moves[..|moves| - 1], moves[|moves| - 1];
      BehindPushes(s, before)
      + if last.Push? && Behind(Run(s, before)) then One(last.mask) else multiset{}
  }

  function Least(a: nat, b: nat): nat {
    if a <= b then a else b
  }

  /** The entries at keys 1..Sure(s) will be read by the running pass (or the next one) before a
      push can reach their keys. */
  function Sure(s: State): (k: nat)
    requires ControlOk(s)
    ensures k <= s.cells[0]
  {
    match s.pc
    case Idle => s.cells[0]
    case Lookup(i) => Least(i, s.cells[0])
    case Ioctl(i) => Least(i - 1, s.cells[0])
    case Clear(i) => Least(i - 1, s.cells[0])
    case Reset => 0
  }

  /** How often x waits above those keys. */
  function AtRisk(s: State, x: nat): int
    requires ControlOk(s)
  {
    Waiting(s.cells, s.claimed, 64, x) - Waiting(s.cells, s.claimed, Sure(s) + 1, x)
  }

  /** The masks lost, and those that still may be, were logged behind the drain. */
  ghost predicate LossOk(s: State, behind: multiset<nat>, x: nat) {
    ControlOk(s) && s.overwritten[x] + s.erased[x] + AtRisk(s, x) <= behind[x]
  }

  lemma {:induction false} WaitingGrows(cells: seq<nat>, skip: nat, m: nat, n: nat, x: nat)
    requires m <= n <= |cells|
    ensures Waiting(cells, skip, m, x) <= Waiting(cells, skip, n, x)
    decreases n
  {
    if m < n {
      WaitingGrows(cells, skip, m, n - 1, x);
    }
  }

  lemma PushSure(s: State, mask: nat)
    requires ControlOk(s) && s.cells[0] < 63
    ensures var t, top := PushStep(s, mask), s.cells[0] + 1;
            && ControlOk(t)
            && (Sure(t) == top ==> Sure(s) == top - 1)
            && (Sure(t) != top ==> Behind(s) && Sure(s) <= Sure(t) < top)
  {
  }

  /** The entry that a push writes over, if it waits there. */
  function Replaced(s: State, x: nat): nat
    requires ControlOk(s) && s.cells[0] < 63
  {
    if s.cells[0] + 1 == s.claimed then 0 else Is(s.cells[s.cells[0] + 1], x)
  }

  lemma PushRiskAhead(s: State, mask: nat, x: nat)
    requires ControlOk(s) && s.cells[0] < 63 && x != 0
    requires ControlOk(PushStep(s, mask)) && Sure(PushStep(s, mask)) == s.cells[0] + 1 == Sure(s) + 1
    ensures AtRisk(PushStep(s, mask), x) + Replaced(s, x) == AtRisk(s, x)
  {
    var top := s.cells[0] + 1;
    PushWaiting(s.cells, s.claimed, mask, 64, x);
    PushWaiting(s.cells, s.claimed, mask, top + 1, x);
  }

  lemma PushRiskBehind(s: State, mask: nat, x: nat)
    requires ControlOk(s) && s.cells[0] < 63 && x != 0
    requires ControlOk(PushStep(s, mask)) && Sure(s) <= Sure(PushStep(s, mask)) < s.cells[0] + 1
    ensures AtRisk(PushStep(s, mask), x) + Replaced(s, x) <= AtRisk(s, x) + Is(mask, x)
  {
    var n := Sure(PushStep(s, mask)) + 1;
    PushWaiting(s.cells, s.claimed, mask, 64, x);
    PushWaiting(s.cells, s.claimed, mask, n, x);
    WaitingGrows(s.cells, s.claimed, Sure(s) + 1, n, x);
  }

  /** A push adds its mask to the entries at risk only behind the drain, and what it writes over
      was at risk. */
  lemma PushRisk(s: State, mask: nat, x: nat)
    requires ControlOk(s) && s.cells[0] < 63 && x != 0
    ensures var t := PushStep(s, mask);
            && ControlOk(t)
            && AtRisk(t, x) + Replaced(s, x) <= AtRisk(s, x) + if Behind(s) then Is(mask, x) else 0
  {
    PushSure(s, mask);
    if Sure(PushStep(s, mask)) == s.cells[0] + 1 {
      PushRiskAhead(s, mask, x);
    } else {
      PushRiskBehind(s, mask, x);
    }
  }

  lemma PushLoss(s: State, mask: nat, behind: multiset<nat>, x: nat)
    requires LossOk(s, behind, x) && x != 0
    ensures LossOk(PushStep(s, mask), behind + if Behind(s) then One(mask) else multiset{}, x)
  {
    if s.cells[0] < 63 {
      PushRisk(s, mask, x);
    }
  }

  lemma LookupRisk(s: State, x: nat)
    requires ControlOk(s) && s.pc.Lookup? && x != 0
    ensures ControlOk(DrainStep(s)) && AtRisk(DrainStep(s), x) <= AtRisk(s, x)
  {
    var i, t := s.pc.i, DrainStep(s);
    if t.pc.Ioctl? {
      WaitingSkip(s.cells, i, 64, x);
      WaitingSkip(s.cells, i, Sure(t) + 1, x);
    }
  }

  /** Clearing a key loses the entry in it that was not claimed, which was at risk. */
  lemma ClearRisk(s: State, x: nat)
    requires ControlOk(s) && s.pc.Clear? && s.pc.i < 64 && x != 0
    ensures var t := DrainStep(s);
            && ControlOk(t)
            && AtRisk(t, x) + (if s.claimed == s.pc.i then 0 else Is(s.cells[s.pc.i], x)) == AtRisk(s, x)
  {
    var i, n := s.pc.i, Sure(s) + 1;
    WaitingUpdate(s.cells, 64, 64, i, 0, x);
    WaitingUpdate(s.cells, 64, n, i, 0, x);
    WaitingSkip(s.cells, s.claimed, 64, x);
    WaitingSkip(s.cells, s.claimed, n, x);
  }

  lemma DrainLoss(s: State, behind: multiset<nat>, x: nat)
    requires LossOk(s, behind, x) && x != 0
    ensures LossOk(DrainStep(s), behind, x)
  {
    match s.pc {
      case Idle =>
      case Lookup(_) => LookupRisk(s, x);
      case Ioctl(_) =>
      case Clear(i) =>
        if i < 64 {
          ClearRisk(s, x);
        }
      case Reset =>
        WaitingUpdate(s.cells, s.claimed, 64, 0, 0, x);
    }
  }

  lemma {:induction false} LossRun(s: State, moves: seq<Move>, x: nat)
    requires LossOk(s, multiset{}, x) && x != 0
    ensures LossOk(Run(s, moves), BehindPushes(s, moves), x)
  {
    if moves != [] {
      var before := moves[..|moves| - 1];
      LossRun(s, before, x);
      match moves[|moves| - 1] {
        case Push(mask) => PushLoss(Run(s, before), mask, BehindPushes(s, before), x);
        case Drain => DrainLoss(Run(s, before), BehindPushes(s, before), x);
      }
    }
  }

  /** In every run the masks overwritten or cleared unseen are among those logged behind the drain,
      counted as often as they were logged there. */
  lemma {:induction false} LossesAreBehind(moves: seq<Move>, x: nat)
    requires x != 0
    ensures var s := Run(Boot(), moves);
            s.overwritten[x] + s.erased[x] <= BehindPushes(Boot(), moves)[x]
  {
    var s := Run(Boot(), moves);
    NothingWaits(64, x);
    LossRun(Boot(), moves, x);
    WaitingGrows(s.cells, s.claimed, Sure(s) + 1, 64, x);
  }

  /** Every kprobe hit falls between two passes of the daemon's drain. */
  ghost predicate Quiet(s: State, moves: seq<Move>)
    requires WellFormed(s)
  {
    moves != [] ==>
      var before := moves[..|moves| - 1];
      Quiet(s, before) && (moves[|moves| - 1].Push? ==> Run(s, before).pc.Idle?)
  }

  lemma {:induction false} QuietIsAhead(s: State, moves: seq<Move>)
    requires WellFormed(s) && Quiet(s, moves)
    ensures NeverBehind(s, moves)
  {
    if moves != [] {
      QuietIsAhead(s, moves[..|moves| - 1]);
    }
  }

  // ---------------------------------------------------------------- a run that loses a mask

  /** n steps of the daemon in a row. */
  function Drains(n: nat): (moves: seq<Move>)
    ensures |moves| == n
  {
    seq(n, _ => Drain)
  }

  lemma RunSnoc(s: State, moves: seq<Move>, move: Move)
    requires WellFormed(s)
    ensures Run(s, moves + [move]) == Step(Run(s, moves), move)
  {
    assert (moves + [move])[..|moves|] == moves;
  }

  /** Two runs that have met stay together. */
  lemma SameStep(s: State, a: seq<Move>, u: State, b: seq<Move>, move: Move)
    requires WellFormed(s) && WellFormed(u) && Run(s, a) == Run(u, b)
    ensures Run(s, a + [move]) == Run(u, b + [move])
  {
    RunSnoc(s, a, move);
    RunSnoc(u, b, move);
  }

  lemma {:induction false} RunAppend(s: State, a: seq<Move>, b: seq<Move>)
    requires WellFormed(s)
    ensures Run(s, a + b) == Run(Run(s, a), b)
  {
    if b == [] {
      assert a + b == a;
    } else {
      var before, last := b[..|b| - 1], b[|b| - 1];
      assert b == before + [last];
      assert a + b == a + before + [last];
      RunAppend(s, a, before);
      SameStep(s, a + before, Run(s, a), before, last);
    }
  }

  /** Two, and four, steps of the daemon. */
  lemma TwoDrains(s: State)
    requires WellFormed(s)
    ensures Run(s, Drains(2)) == DrainStep(DrainStep(s))
  {
    assert Drains(2) == [] + [Drain] + [Drain];
    RunSnoc(s, [], Drain);
    RunSnoc(s, [Drain], Drain);
  }

  lemma FourDrains(s: State)
    requires WellFormed(s)
    ensures Run(s, Drains(4)) == DrainStep(DrainStep(DrainStep(DrainStep(s))))
  {
    TwoDrains(s);
    TwoDrains(DrainStep(DrainStep(s)));
    assert Drains(4) == Drains(2) + Drains(2);
    RunAppend(s, Drains(2), Drains(2));
  }

  /** Empty keys cost the daemon one step each. */
  lemma {:induction false} SkipEmpty(s: State, lo: nat, n: nat)
    requires WellFormed(s) && s.pc == Lookup(lo + n) && 1 <= lo && lo + n < 64
    requires s.value == 0 && forall j | lo < j <= lo + n :: s.cells[j] == 0
    ensures Run(s, Drains(n)) == s.(pc := Lookup(lo))
    decreases n
  {
    if n > 0 {
      SkipEmpty(s, lo + 1, n - 1);
      assert Drains(n) == Drains(n - 1) + [Drain];
      RunSnoc(s, Drains(n - 1), Drain);
    }
  }

  /** From the start of a pass to key lo, if the keys above lo are empty. */
  lemma StartPass(s: State, lo: nat)
    requires WellFormed(s) && s.pc.Idle? && s.cells[0] != 0 && 1 <= lo < 63
    requires EmptyFrom(s.cells, lo + 1)
    ensures Run(s, Drains(4) + Drains(63 - lo)) ==
              s.(pc := Lookup(lo), value := 0, claimed := 64,
                 delivered := s.delivered + [Delivery(64, s.cells[0])])
  {
    FourDrains(s);
    var t := Run(s, Drains(4));
    assert t.pc == Lookup(63) && t.value == 0 && t.cells == s.cells;
    SkipEmpty(t, lo, 63 - lo);
    RunAppend(s, Drains(4), Drains(63 - lo));
  }

  /** The four steps that drain key 1 and reset the count. */
  lemma FinishPass(s: State)
    requires WellFormed(s) && s.pc == Lookup(1) && s.cells[1] != 0
    ensures Run(s, Drains(4)) ==
              s.(cells := s.cells[1 := 0][0 := 0], pc := Idle, value := 0, claimed := 64,
                 delivered := s.delivered + [Delivery(1, s.cells[1])])
  {
    FourDrains(s);
    var s1 := DrainStep(s);
    assert s1 == s.(pc := Ioctl(1), value := s.cells[1], claimed := 1);
    var s2 := DrainStep(s1);
    var s3 := DrainStep(s2);
    assert s3.pc == Reset && s3.cells == s.cells[1 := 0] && s3.erased == s.erased;
  }

  /** The map with only the given entries at keys 0, 1 and 2. */
  function Small(count: nat, one: nat, two: nat): (cells: seq<nat>)
    ensures |cells| == 64
  {
    seq(64, j => if j == 0 then count else if j == 1 then one else if j == 2 then two else 0)
  }

  /** Log a mask in an empty log and let the daemon come to the lookup of key 1. */
  lemma LogAndDrain(s: State)
    requires WellFormed(s) && s.pc.Idle? && s.claimed == 64 && s.cells == Small(0, 0, 0)
    ensures var t := Run(PushStep(s, 1), Drains(4) + Drains(62));
            && t.pc == Lookup(1) && t.claimed == 64 && t.cells == Small(1, 1, 0)
            && t.erased == s.erased && t.overwritten == s.overwritten
  {
    var t := PushStep(s, 1);
    assert t.cells == Small(1, 1, 0);
    StartPass(t, 1);
  }

  /** A mask logged just before the daemon reads key 1 goes to key 2 and stays there. */
  lemma LogBehind(s: State, d: nat)
    requires WellFormed(s) && s.pc == Lookup(1) && s.claimed == 64 && s.cells == Small(1, 1, 0)
    ensures var t := Run(PushStep(s, d), Drains(4));
            && t.pc.Idle? && t.claimed == 64 && t.cells == Small(0, 0, d)
            && t.erased == s.erased && t.overwritten == s.overwritten
  {
    var u := PushStep(s, d);
    assert u.cells == Small(2, 1, d);
    FinishPass(u);
    assert u.cells[1 := 0][0 := 0] == Small(0, 0, d);
  }

  /** So the map can hold a mask although its count is 0. */
  lemma StaleEntry(s: State, d: nat) returns (moves: seq<Move>)
    requires WellFormed(s) && s.pc.Idle? && s.claimed == 64 && s.cells == Small(0, 0, 0)
    ensures var t := Run(s, moves);
            && t.pc.Idle? && t.claimed == 64 && t.cells == Small(0, 0, d)
            && t.erased == s.erased && t.overwritten == s.overwritten
  {
    LogAndDrain(s);
    LogBehind(Run(PushStep(s, 1), Drains(4) + Drains(62)), d);
    moves := TwoPushes(s, 1, Drains(4) + Drains(62), d, Drains(4));
  }

  /** A push, some moves, another push, more moves, as one run. */
  lemma TwoPushes(s: State, a: nat, m1: seq<Move>, b: nat, m2: seq<Move>) returns (moves: seq<Move>)
    requires WellFormed(s)
    ensures Run(s, moves) == Run(PushStep(Run(PushStep(s, a), m1), b), m2)
  {
    RunSnoc(s, [], Push(a));
    RunAppend(s, [] + [Push(a)], m1);
    RunSnoc(s, [] + [Push(a)] + m1, Push(b));
    RunAppend(s, [] + [Push(a)] + m1 + [Push(b)], m2);
    moves := [] + [Push(a)] + m1 + [Push(b)] + m2;
  }

  /** With the count at 1 and a stale entry at key 2, d is logged at key 2 while it is open. */
  lemma HitOpenKey(s: State, d: nat)
    requires WellFormed(s) && s.pc == Lookup(2) && s.cells[0] == 1 && s.cells[2] != 0 && d != 0
    ensures Run(PushStep(DrainStep(s), d), Drains(2)).erased == s.erased + multiset{d}
  {
    var t := DrainStep(s);
    assert t.pc == Ioctl(2) && t.claimed == 2 && WouldBeLost(t);
    var u := PushStep(t, d);
    assert u.cells[2] == d && u.claimed == 64 && u.erased == s.erased;
    TwoDrains(u);
  }

  /** From a stale entry at key 2 on: log a mask and let the daemon come to the lookup of key 2. */
  lemma ReachStale(s: State, e: nat)
    requires WellFormed(s) && s.pc.Idle? && s.claimed == 64 && s.cells == Small(0, 0, e)
    ensures var t := Run(PushStep(s, 1), Drains(4) + Drains(61));
            t.pc == Lookup(2) && t.cells == Small(1, 1, e) && t.erased == s.erased
  {
    var u := PushStep(s, 1);
    assert u.cells == Small(1, 1, e);
    StartPass(u, 2);
  }

  /** Then let the daemon read key 2, log d, and let the daemon clear key 2. */
  lemma LoseMask(s: State, e: nat, d: nat) returns (moves: seq<Move>)
    requires WellFormed(s) && s.pc.Idle? && s.claimed == 64 && s.cells == Small(0, 0, e)
    requires d != 0 && e != 0
    ensures Run(s, moves).erased == s.erased + multiset{d}
  {
    ReachStale(s, e);
    var u, toKey2 := PushStep(s, 1), Drains(4) + Drains(61);
    RunSnoc(u, toKey2, Drain);
    HitOpenKey(Run(u, toKey2), d);
    moves := TwoPushes(s, 1, toKey2 + [Drain], d, Drains(2));
  }

  /** Losses do happen: any mask d is cleared unseen in some run, by being pushed while the daemon
      delivers a stale entry at the key after the count. */
  lemma {:induction false} LossIsReached(d: nat)
    requires d != 0
    ensures exists moves :: Run(Boot(), moves).erased == multiset{d}
  {
    assert Boot().cells == Small(0, 0, 0);
    var first := StaleEntry(Boot(), 1);
    var second := LoseMask(Run(Boot(), first), 1, d);
    RunAppend(Boot(), first, second);
    assert Run(Boot(), first + second).erased == multiset{d};
  }

  /** Two pushes write over a stale entry at key 2. */
  lemma OverwriteStale(s: State, d: nat) returns (moves: seq<Move>)
    requires WellFormed(s) && s.pc.Idle? && s.claimed == 64 && s.cells == Small(0, 0, d) && d != 0
    ensures Run(s, moves).overwritten == s.overwritten + multiset{d}
  {
    var t := PushStep(s, 1);
    assert t.cells[0] == 1 && t.cells[2] == d && t.overwritten == s.overwritten;
    moves := TwoPushes(s, 1, [], 1, []);
  }

  /** And any mask d is overwritten unseen in some run, by being left behind at key 2. */
  lemma {:induction false} OverwriteIsReached(d: nat)
    requires d != 0
    ensures exists moves :: Run(Boot(), moves).overwritten == multiset{d}
  {
    assert Boot().cells == Small(0, 0, 0);
    var first := StaleEntry(Boot(), d);
    var second := OverwriteStale(Run(Boot(), first), d);
    RunAppend(Boot(), first, second);
    assert Run(Boot(), first + second).overwritten == multiset{d};
  }

  // ---------------------------------------------------------------- quiet drains

  /** The real entries at keys i, i-1, ..., 1, newest first. */
  function Descending(cells: seq<nat>, i: nat): seq<Delivery>
    requires i < |cells|
  {
    if i == 0 then []
    else (if cells[i] != 0 then [Delivery(i, cells[i])] else []) + Descending(cells, i - 1)
  }

  /** What one undisturbed pass delivers: the count (under the out-of-range key 64), then the
      non-zero entries from key 63 down to key 1. */
  function Deliveries(cells: seq<nat>): seq<Delivery>
    requires |cells| == 64
  {
    if cells[0] == 0 then [] else [Delivery(64, cells[0])] + Descending(cells, 63)
  }

  function Rank(pc: DrainPc): nat {
    match pc
    case Idle => 0
    case Reset => 1
    case Clear(i) => 3 * i + 2
    case Ioctl(i) => 3 * i + 3
    case Lookup(i) => 3 * i + 4
  }

  /** The daemon alone, until it is between passes again. */
  function DrainOut(s: State): State
    requires WellFormed(s)
    decreases Rank(s.pc)
  {
    if s.pc.Idle? then s else DrainOut(DrainStep(s))
  }

  /** cells with keys lo..hi-1 cleared. */
  function Cleared(cells: seq<nat>, lo: nat, hi: nat): (c: seq<nat>)
    requires lo <= hi <= |cells|
    ensures |c| == |cells|
  {
    seq(|cells|, j requires 0 <= j < |cells| => if lo <= j < hi then 0 else cells[j])
  }

  /** From key i on, the daemon delivers the rest of the log and clears it, and `value` is 0 when
      it is written back to key 0. */
  lemma {:induction false} DrainTail(s: State, i: nat)
    requires WellFormed(s) && s.pc == Next(i + 1) && s.value == 0 && i < 64
    ensures DrainOut(s).delivered == s.delivered + Descending(s.cells, i)
    ensures DrainOut(s).cells == Cleared(s.cells, 0, i + 1)
    ensures DrainOut(s).value == 0
    decreases i
  {
    if i == 0 {
      var t := DrainStep(s);
      assert DrainOut(s) == DrainOut(t) == t;
      assert t.cells == Cleared(s.cells, 0, 1);
    } else {
      var u := DrainKey(s);
      DrainTail(u, i - 1);
      OneMoreKey(s.cells, i, s.delivered);
    }
  }

  lemma OneMoreKey(cells: seq<nat>, i: nat, ds: seq<Delivery>)
    requires 1 <= i < |cells|
    ensures Cleared(cells[i := 0], 0, i) == Cleared(cells, 0, i + 1)
    ensures ds + (if cells[i] != 0 then [Delivery(i, cells[i])] else [])
               + Descending(cells[i := 0], i - 1) == ds + Descending(cells, i)
  {
    DescendingLocal(cells, cells[i := 0], i - 1);
  }

  /** The steps spent on one real key. */
  lemma DrainKey(s: State) returns (u: State)
    requires WellFormed(s) && s.pc.Lookup? && s.pc.i < 64
    ensures WellFormed(u) && DrainOut(s) == DrainOut(u)
    ensures u.pc == Next(s.pc.i) && u.value == 0
    ensures u.cells == s.cells[s.pc.i := 0]
    ensures u.delivered ==
              s.delivered + (if s.cells[s.pc.i] != 0 then [Delivery(s.pc.i, s.cells[s.pc.i])] else [])
  {
    var s1 := DrainStep(s);
    if s.cells[s.pc.i] == 0 {
      u := s1;
    } else {
      var s2 := DrainStep(s1);
      u := DrainStep(s2);
      assert DrainOut(s1) == DrainOut(s2) == DrainOut(u);
    }
  }

  /** One more key of a pass: the map with the keys above i cleared, and what is still to come. */
  lemma ClearedStep(cells: seq<nat>, i: nat)
    requires |cells| == 64 && 1 <= i < 64
    ensures Cleared(cells, i + 1, 64)[i] == cells[i]
    ensures Cleared(cells, i + 1, 64)[i := 0] == Cleared(cells, i, 64)
    ensures Descending(cells, i) ==
              (if cells[i] != 0 then [Delivery(i, cells[i])] else []) + Descending(cells, i - 1)
  {
  }

  lemma {:induction false} DescendingLocal(a: seq<nat>, b: seq<nat>, i: nat)
    requires i < |a| == |b| && forall j | 1 <= j <= i :: a[j] == b[j]
    ensures Descending(a, i) == Descending(b, i)
  {
    if i > 0 {
      DescendingLocal(a, b, i - 1);
    }
  }

  /** A quiet pass of the daemon delivers exactly Deliveries and leaves an all-zero map. */
  lemma {:induction false} QuietPass(s: State)
    requires WellFormed(s) && s.pc.Idle?
    ensures var t := DrainOut(DrainStep(s));
            && t.delivered == s.delivered + Deliveries(s.cells)
            && t.cells == (if s.cells[0] == 0 then s.cells else Boot().cells)
            && t.value == 0
  {
    if s.cells[0] != 0 {
      var s1 := DrainStep(s);
      var s2 := DrainStep(s1);
      var s3 := DrainStep(s2);
      var t := DrainStep(s3);
      assert DrainOut(s1) == DrainOut(s2) == DrainOut(s3) == DrainOut(t);
      assert t.pc == Lookup(63) && t.cells == s.cells;
      assert t.delivered == s.delivered + [Delivery(64, s.cells[0])];
      DrainTail(t, 63);
      assert Cleared(t.cells, 0, 64) == Boot().cells;
    }
  }

  // ---------------------------------------------------------------- the objects

  /** The BPF array map cpuindex_mask_maps. */
  class MaskMap {
    const elems: array<nat>

    ghost predicate Valid()
      reads this
    {
      elems.Length == 64
    }

    constructor ()
      ensures Valid() && fresh(elems) && elems[..] == Boot().cells
    {
      elems := new nat[64](_ => 0);
    }

    /** bpf_map_lookup_elem into a variable that held value: a missing key leaves it alone. */
    method LookupElem(key: nat, value: nat) returns (v: nat)
      requires Valid()
      ensures v == if key < 64 then elems[key] else value
    {
      v := if key < 64 then elems[key] else value;
    }

    /** bpf_map_update_elem: a missing key of an array map cannot be created. */
    method UpdateElem(key: nat, value: nat)
      requires Valid()
      modifies elems
      ensures elems[..] == if key < 64 then old(elems[..])[key := value] else old(elems[..])
    {
      if key < 64 {
        elems[key] := value;
      }
    }

    /** bpf_prog1. */
    method BpfProg1(mask: nat)
      requires Valid()
      modifies elems
      ensures elems[..] == Pushed(old(elems[..]), mask)
      ensures old(elems[0]) == 63 ==> elems[..] == old(elems[..])
      ensures old(elems[0]) != 63 ==>
                && elems[0] == old(elems[0]) + 1 && (elems[0] < 64 ==> elems[elems[0]] == mask)
                && forall j | 1 <= j < 64 && j != elems[0] :: elems[j] == old(elems[j])
    {
      if elems[0] == 63 {
        return;
      }
      elems[0] := elems[0] + 1;
      var index := elems[0];
      UpdateElem(index, mask);
    }

    /** The body of that loop for key i: the ioctl made, if any, and the daemon's variable. */
    method DrainOne(i: nat, value0: nat) returns (ioctl: seq<Delivery>, value: nat)
      requires Valid() && i > 0
      modifies elems
      ensures var found := if i < 64 then old(elems[i]) else value0;
              ioctl == if found != 0 then [Delivery(i, found)] else []
      ensures elems[..] == if i < 64 then old(elems[..])[i := 0] else old(elems[..])
      ensures value == 0
    {
      ioctl := [];
      value := LookupElem(i, value0);
      if value != 0 {
        ioctl := [Delivery(i, value)];
        value := 0;
        UpdateElem(i, value);
      }
    }

    /** One pass of the daemon's loop in main, the ioctls collected in order; value is the
        daemon's variable, whatever it holds. */
    method DrainPass(value0: nat) returns (delivered: seq<Delivery>, value: nat)
      requires Valid()
      modifies elems
      ensures delivered == Deliveries(old(elems[..]))
      ensures elems[..] == if old(elems[0]) == 0 then old(elems[..]) else Boot().cells
      ensures value == 0
    {
      ghost var cells := elems[..];
      delivered := [];
      value := LookupElem(0, value0);
      if value != 0 {
        assert Cleared(cells, 64, 64) == cells;
        var i := 64;
        while i > 0
          invariant 0 <= i <= 64 && elems[..] == Cleared(cells, Least(i + 1, 64), 64)
          invariant i == 64 ==> value == cells[0] && delivered == []
          invariant i < 64 ==> value == 0 && delivered + Descending(cells, i) == Deliveries(cells)
        {
          if i < 64 {
            ClearedStep(cells, i);
          }
          var ioctl;
          ioctl, value := DrainOne(i, value);
          delivered := delivered + ioctl;
          i := i - 1;
        }
        UpdateElem(0, value);
      }
    }
  }
}
