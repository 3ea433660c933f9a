/** The interrupt path between the device and its driver: hucdev_raise_irq and hucdev_lower_irq on
    one side, irq_handler's status read and acknowledgement on the other. The device raises only
    from its socket handler, so a run interleaves injection and affinity raises with the two
    halves of the interrupt handler. */
module Irq {

  const PROGRAM_INJECTION: bv32 := 1
  const PROGRAM_INJECTION_AFFINITY: bv32 := 3

  /** irq_status and the level of the interrupt pin. */
  datatype Pin = Pin(status: bv32, line: bool)

  function Raise(p: Pin, val: bv32): Pin {
    var status := p.status | val;
    Pin(status, if status != 0 then true else p.line)
  }

  function Lower(p: Pin, val: bv32): Pin {
    var status := p.status & !val;
    Pin(status, if status == 0 then false else p.line)
  }

  /** The driver's flag after irq_handler has read the given status. */
  function Dispatch(status: bv32, flag: nat): nat {
    if status == 1 then 2 else if status == 3 then 2 else if status == 22 then 1 else flag
  }

  /** irq_handler between its calls, or between reading v and acknowledging it. */
  datatype Handler = HIdle | HRead(v: bv32)

  /** since collects the bits raised after the handler's last status read. */
  datatype State = State(pin: Pin, flag: nat, handler: Handler, since: bv32)

  datatype Move = RaiseInjection | RaiseAffinity | HandlerStep

  function RaiseStep(s: State, val: bv32): State {
    s.(pin := Raise(s.pin, val), since := s.since | val)
  }

  function Step(s: State, move: Move): State {
    match move
    case RaiseInjection => RaiseStep(s, PROGRAM_INJECTION)
    case RaiseAffinity => RaiseStep(s, PROGRAM_INJECTION_AFFINITY)
    case HandlerStep =>
      match s.handler
      case HIdle =>
        s.(flag := Dispatch(s.pin.status, s.flag), handler := HRead(s.pin.status), since := 0)
      case HRead(v) => s.(pin := Lower(s.pin, v), handler := HIdle)
  }

  function Run(s: State, moves: seq<Move>): State {
    if moves == [] then s
    else Step(Run(s, moves[..|moves| - 1]), moves[|moves| - 1])
  }

  function Boot(): State {
    State(Pin(0, false), 0, HIdle, 0)
  }

  ghost predicate Inv(s: State) {
    && (s.pin.line <==> s.pin.status != 0)
    && s.pin.status <= 3
    && s.flag in {0, 2}
    && (s.handler.HRead? ==> s.pin.status == s.handler.v | s.since)
  }

  lemma WordFacts(a: bv32, b: bv32, c: bv32)
    ensures (a | b) | c == a | (b | c)
    ensures a <= 3 && b <= 3 ==> a | b <= 3
    ensures a <= 3 ==> a & !b <= 3
    ensures b != 0 ==> a | b != 0
  {
  }

  lemma RaiseInv(s: State, val: bv32)
    requires Inv(s) && 1 <= val <= 3
    ensures Inv(RaiseStep(s, val))
  {
    WordFacts(s.pin.status, val, 0);
    if s.handler.HRead? {
      WordFacts(s.handler.v, s.since, val);
    }
  }

  lemma HandlerInv(s: State)
    requires Inv(s)
    ensures Inv(Step(s, HandlerStep))
  {
    if s.handler.HRead? {
      WordFacts(s.pin.status, s.handler.v, 0);
    }
  }

  lemma {:induction false} RunInv(s: State, moves: seq<Move>)
    requires Inv(s)
    ensures Inv(Run(s, moves))
  {
    if moves != [] {
      RunInv(s, moves[..|moves| - 1]);
      var before := Run(s, moves[..|moves| - 1]);
      match moves[|moves| - 1] {
        case RaiseInjection => RaiseInv(before, PROGRAM_INJECTION);
        case RaiseAffinity => RaiseInv(before, PROGRAM_INJECTION_AFFINITY);
        case HandlerStep => HandlerInv(before);
      }
    }
  }

  /** In every run the pin is high exactly while a status bit is set, the status word is 0..3,
      and the handler's case 22 is never taken (it would set flag to 1). */
  lemma {:induction false} PinFollowsStatus(moves: seq<Move>)
    ensures var s := Run(Boot(), moves);
            && (s.pin.line <==> s.pin.status != 0)
            && s.pin.status <= 3
            && s.flag != 1
  {
    RunInv(Boot(), moves);
  }

  /** An acknowledgement leaves pending exactly the bits that were raised since the status read
      and were not in the value read. */
  lemma {:induction false} AckLeavesNewBits(moves: seq<Move>)
    ensures var s := Run(Boot(), moves);
            s.handler.HRead? ==>
              Step(s, HandlerStep).pin.status == s.since & !s.handler.v
  {
    var s := Run(Boot(), moves);
    RunInv(Boot(), moves);
    if s.handler.HRead? {
      AckedWord(s.handler.v, s.since);
    }
  }

  lemma AckedWord(v: bv32, since: bv32)
    ensures (v | since) & !v == since & !v
  {
  }

  /** The second half of the running interrupt, and the first half of the next one. */
  function AckAndReadAgain(s: State): State {
    Step(Step(s, HandlerStep), HandlerStep)
  }

  lemma RaisedInWindow(v: bv32, since: bv32, val: bv32)
    requires v | since <= 3 && 1 <= val <= 3
    ensures (v | since | val) & !v == (since | val) & !v
    ensures val == 3 ==> (v | since | val) & !v == 3 & !v
    ensures val & 1 != 0 ==> ((v | since | val) & !v) & 1 == 1 & !v
  {
  }

  /** An injection raised between status read and acknowledgement, whatever else was raised there:
      the next interrupt wakes the reader if and only if the value read lacked bit 0. */
  lemma {:induction false} InjectionInWindow(moves: seq<Move>)
    ensures var s := Run(Boot(), moves);
            s.handler.HRead? ==>
              var t := AckAndReadAgain(Step(s, RaiseInjection));
              && (t.handler.v & 1 != 0 <==> s.handler.v & 1 == 0)
              && t.flag == if s.handler.v & 1 == 0 then 2 else s.flag
  {
    var s := Run(Boot(), moves);
    RunInv(Boot(), moves);
    if s.handler.HRead? {
      RaisedInWindow(s.handler.v, s.since, PROGRAM_INJECTION);
      WakesIffOdd(AckAndReadAgain(Step(s, RaiseInjection)).handler.v, s.flag);
    }
  }

  /** An affinity interrupt raised in that window: the next interrupt reads 3 without the bits of
      the value read. So it is seen as what it is only if the value read was 0, it wakes the reader
      (if need be as an injection) if and only if the value read lacked bit 0, and it is swallowed
      completely if the value read was 3. */
  lemma {:induction false} AffinityInWindow(moves: seq<Move>)
    ensures var s := Run(Boot(), moves);
            s.handler.HRead? ==>
              var t := AckAndReadAgain(Step(s, RaiseAffinity));
              && t.handler.v == 3 & !s.handler.v
              && (t.handler.v == 3 <==> s.handler.v == 0)
              && (t.handler.v == 0 <==> s.handler.v == 3)
              && t.flag == if s.handler.v & 1 == 0 then 2 else s.flag
  {
    var s := Run(Boot(), moves);
    RunInv(Boot(), moves);
    if s.handler.HRead? {
      RaisedInWindow(s.handler.v, s.since, PROGRAM_INJECTION_AFFINITY);
      ReadValueSmall(s);
      MissingBits(s.handler.v);
      WakesIffOdd(AckAndReadAgain(Step(s, RaiseAffinity)).handler.v, s.flag);
    }
  }

  lemma WakesIffOdd(v: bv32, flag: nat)
    ensures v <= 3 ==> Dispatch(v, flag) == if v & 1 != 0 then 2 else flag
  {
  }

  lemma ReadValueSmall(s: State)
    requires Inv(s) && s.handler.HRead?
    ensures s.handler.v <= 3
  {
  }

  lemma MissingBits(v: bv32)
    requires v <= 3
    ensures 3 & !v <= 3
    ensures 3 & !v == 3 <==> v == 0
    ensures 3 & !v == 0 <==> v == 3
    ensures (3 & !v) & 1 != 0 <==> v & 1 == 0
  {
  }

  /** The runs that reach the window with each of the four possible values read. */
  lemma WindowsReached()
    ensures Run(Boot(), [HandlerStep]).handler == HRead(0)
    ensures Run(Boot(), [RaiseInjection, HandlerStep]).handler == HRead(1)
    ensures Run(Boot(), [RaiseInjection, HandlerStep, RaiseAffinity, HandlerStep, HandlerStep]).handler ==
              HRead(2)
    ensures Run(Boot(), [RaiseAffinity, HandlerStep]).handler == HRead(3)
  {
    RunOne(Boot(), HandlerStep);
    RunTwo(Boot(), RaiseInjection, HandlerStep);
    RunTwo(Boot(), RaiseAffinity, HandlerStep);
    var m := [RaiseInjection, HandlerStep, RaiseAffinity, HandlerStep, HandlerStep];
    assert m[..4] == [RaiseInjection, HandlerStep, RaiseAffinity, HandlerStep];
    assert m[..4][..3] == [RaiseInjection, HandlerStep, RaiseAffinity];
    assert m[..4][..3][..2] == [RaiseInjection, HandlerStep];
    var s := Run(Boot(), [RaiseInjection, HandlerStep]);
    assert Run(Boot(), m[..4][..3]) == Step(s, RaiseAffinity);
    assert Run(Boot(), m[..4]) == Step(Step(s, RaiseAffinity), HandlerStep);
    assert Run(Boot(), m) == Step(Run(Boot(), m[..4]), HandlerStep);
  }

  lemma RunOne(s: State, a: Move)
    ensures Run(s, [a]) == Step(s, a)
  {
    assert [a][..0] == [];
  }

  lemma RunTwo(s: State, a: Move, b: Move)
    ensures Run(s, [a, b]) == Step(Step(s, a), b)
  {
    assert [a, b][..1] == [a];
    RunOne(s, a);
  }
}
