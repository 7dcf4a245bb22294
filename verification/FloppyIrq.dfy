// The IRQ6 handshake of the floppy driver
// (src/kernel/drivers/disk/floppy/floppy.cpp, send_command, wait_for_irq and
// floppy_handler; src/kernel/drivers/pit/pit.cpp for the tick counter).

module FloppyIrq {
  const TIMEOUT := 3000
  const WRAP := 0x1_0000_0000

  datatype Command =
    | ReadTrack | Specify | SenseDriveStatus | WriteData | ReadData | Recalibrate | SenseInterrupt
    | WriteDeletedData | ReadId | ReadDeletedData | FormatTrack | DumpReg | Seek | Version | ScanEqual
    | PerpendicularMode | Configure | Lock | Verify | ScanLowOrEqual | ScanHighOrEqual

  function ParameterCount(c: Command): nat {
    match c
    case ReadTrack => 8
    case Specify => 2
    case SenseDriveStatus => 1
    case WriteData => 8
    case ReadData => 8
    case Recalibrate => 1
    case SenseInterrupt => 0
    case WriteDeletedData => 8
    case ReadId => 1
    case ReadDeletedData => 8
    case FormatTrack => 9
    case DumpReg => 0
    case Seek => 2
    case Version => 0
    case ScanEqual => 8
    case PerpendicularMode => 1
    case Configure => 3
    case Lock => 0
    case Verify => 8
    case ScanLowOrEqual => 8
    case ScanHighOrEqual => 8
  }

  predicate HasInterrupt(c: Command) {
    c.Verify? || c.ReadData? || c.WriteData? || c.Recalibrate? || c.Seek?
  }

  // Where the driver is in send_command for a command it waits for.
  datatype Pc =
    | CommandSent            // the flag is set next
    | Sending(next: nat)     // parameters before `next` are written
    | CheckTime              // about to compare the clock with the timeout
    | CheckFlag              // about to read waitingForIRQ
    | AboutToHalt            // it was still set; an interrupt here does not end the halt
    | Halted                 // until the next interrupt
    | Finished(ok: bool)

  // written, completed, elapsed and sinceCheck only serve the specification: the
  // number of parameter bytes the controller has got, whether IRQ6 was handled, the
  // true number of ticks since wait_for_irq began, and those since it last compared
  // the clock.
  datatype State = State(
    pc: Pc, waiting: bool, ticks: int, start: int,
    written: nat, completed: bool, elapsed: nat, sinceCheck: nat)

  // A step of the driver, a timer interrupt, or IRQ6 with its handler.
  datatype Event = Driver | Tick | Irq6

  predicate InWait(s: State) { s.pc.CheckTime? || s.pc.CheckFlag? || s.pc.AboutToHalt? || s.pc.Halted? }

  // The controller has the whole command: it answers only then, and once.
  predicate ControllerBusy(s: State, parameters: nat) { !s.completed && s.written == parameters }

  predicate Enabled(s: State, e: Event, parameters: nat) {
    match e
    case Driver => !s.pc.Halted? && !s.pc.Finished?
    case Tick => true
    case Irq6 => ControllerBusy(s, parameters)
  }

  function Awake(pc: Pc): Pc { if pc.Halted? then CheckTime else pc }

  function Step(s: State, e: Event, parameters: nat): State {
    match e
    case Tick =>
      s.(ticks := (s.ticks + 1) % WRAP, pc := Awake(s.pc),
         elapsed := if InWait(s) then s.elapsed + 1 else s.elapsed,
         sinceCheck := if InWait(s) then s.sinceCheck + 1 else s.sinceCheck)
    case Irq6 => s.(waiting := false, completed := true, pc := Awake(s.pc))
    case Driver =>
      match s.pc
      case CommandSent => s.(waiting := true, pc := Sending(0))
      case Sending(next) =>
        if next < parameters then s.(pc := Sending(next + 1), written := s.written + 1)
        else s.(start := s.ticks, elapsed := 0, sinceCheck := 0, pc := CheckTime)
      case CheckTime =>
        if (s.ticks - s.start) % WRAP < TIMEOUT then s.(pc := CheckFlag, sinceCheck := 0)
        else s.(pc := Finished(false))
      case CheckFlag => s.(pc := if !s.waiting then Finished(true) else AboutToHalt)
      case AboutToHalt => s.(pc := Halted)
      case Halted => s
      case Finished(_) => s
  }

  ghost predicate IsRun(s: State, events: seq<Event>, parameters: nat)
    decreases |events|
  {
    events == [] ||
    (Enabled(s, events[0], parameters) && IsRun(Step(s, events[0], parameters), events[1..], parameters))
  }

  // The waiting driver, which any interrupt wakes, is held up for at most `lag`
  // ticks between two looks at the clock.
  ghost predicate HeldUpAtMost(s: State, events: seq<Event>, parameters: nat, lag: nat)
    decreases |events|
  {
    events == [] ||
    ((events[0].Tick? && InWait(s) ==> s.sinceCheck < lag) &&
     HeldUpAtMost(Step(s, events[0], parameters), events[1..], parameters, lag))
  }

  function Run(s: State, events: seq<Event>, parameters: nat): State
    decreases |events|
  {
    if events == [] then s else Run(Step(s, events[0], parameters), events[1..], parameters)
  }

  predicate AtStart(s: State) {
    s.pc == CommandSent && s.written == 0 && !s.completed && 0 <= s.ticks < WRAP
  }

  // The flag is down exactly once IRQ6 was handled, and the clock difference is
  // the true one modulo 2^32.
  ghost predicate Inv(s: State, parameters: nat) {
    && 0 <= s.ticks < WRAP
    && match s.pc
       case CommandSent => s.written == 0 && !s.completed
       case Sending(next) =>
         s.written == next <= parameters && s.waiting == !s.completed && (next < parameters ==> !s.completed)
       case Finished(ok) =>
         s.written == parameters && s.waiting == !s.completed && (if ok then s.completed else TIMEOUT <= s.elapsed)
       case _ =>
         && s.written == parameters && s.waiting == !s.completed && 0 <= s.start < WRAP
         && s.ticks == (s.start + s.elapsed) % WRAP
  }

  // ----- The tables -----

  // Every command the driver waits for has a parameter.
  lemma WaitingCommandsHaveParameters(c: Command)
    requires HasInterrupt(c)
    ensures 1 <= ParameterCount(c)
  {
  }

  // The commands the driver executes, with the number of parameters it passes and
  // whether it then waits for the controller's interrupt.
  datatype Call = Call(command: Command, passed: nat, waits: bool)

  const CALLS := [
    Call(Version, 0, false), Call(Configure, 3, false), Call(Lock, 0, false), Call(Recalibrate, 1, true),
    Call(SenseInterrupt, 0, false), Call(ReadData, 8, true), Call(Specify, 2, false)]

  // Each call passes what the table of parameter counts makes send_command write, and
  // send_command waits for those that move the head or transfer data, and no other.
  lemma CallsAgreeWithTables(i: nat)
    requires i < |CALLS|
    ensures CALLS[i].passed == ParameterCount(CALLS[i].command)
    ensures CALLS[i].waits == HasInterrupt(CALLS[i].command)
  {
  }

  // ----- The protocol -----

  lemma StepKeepsInv(s: State, e: Event, parameters: nat)
    requires Inv(s, parameters) && 1 <= parameters && Enabled(s, e, parameters)
    ensures Inv(Step(s, e, parameters), parameters)
  {
  }

  lemma {:induction false} RunKeepsInv(s: State, events: seq<Event>, parameters: nat)
    requires Inv(s, parameters) && 1 <= parameters && IsRun(s, events, parameters)
    ensures Inv(Run(s, events, parameters), parameters)
    decreases |events|
  {
    if events != [] {
      StepKeepsInv(s, events[0], parameters);
      hide Inv, Step, Enabled;
      RunKeepsInv(Step(s, events[0], parameters), events[1..], parameters);
    }
  }

  // In every interleaving of driver, timer and IRQ6 the driver waits only once all
  // parameters are written, a waiting command that ends with success was answered,
  // one that times out had at least 3000 ticks, whatever the counter's wrap-around,
  // and an answer is never lost: the flag stays down.
  lemma HandshakeIsSafe(c: Command, s: State, events: seq<Event>)
    requires HasInterrupt(c) && AtStart(s) && IsRun(s, events, ParameterCount(c))
    ensures var t := Run(s, events, ParameterCount(c));
            && t.written <= ParameterCount(c) && (InWait(t) || t.pc.Finished? ==> t.written == ParameterCount(c))
            && (t.pc == Finished(true) ==> t.completed)
            && (t.pc == Finished(false) ==> 3000 <= t.elapsed)
            && (t.completed ==> !t.waiting)
  {
    WaitingCommandsHaveParameters(c);
    RunKeepsInv(s, events, ParameterCount(c));
  }

  // Once the answer has come, two driver steps end the wait with success, exactly
  // when the clock has not reached the timeout.
  lemma AnswerIsSeen(s: State, parameters: nat)
    requires Inv(s, parameters) && s.pc == CheckTime && s.completed
    ensures s.elapsed % WRAP < TIMEOUT <==> Step(Step(s, Driver, parameters), Driver, parameters).pc == Finished(true)
  {
  }

  // ----- How long the driver waits -----

  // The wait ends less than `lag` ticks after the timeout.
  predicate InTime(s: State, lag: nat) {
    InWait(s) || s.pc == Finished(false) ==> s.elapsed < TIMEOUT + lag
  }

  // What holds of the time when no hold-up lasts for a whole turn of the counter.
  ghost predicate Timely(s: State, lag: nat) {
    && InTime(s, lag)
    && (InWait(s) ==> s.elapsed < TIMEOUT + s.sinceCheck && s.sinceCheck <= lag)
  }

  lemma {:induction false} RunKeepsTimely(s: State, events: seq<Event>, parameters: nat, lag: nat)
    requires Inv(s, parameters) && Timely(s, lag) && 1 <= parameters && lag <= WRAP - TIMEOUT
    requires IsRun(s, events, parameters) && HeldUpAtMost(s, events, parameters, lag)
    ensures Timely(Run(s, events, parameters), lag)
    decreases |events|
  {
    if events != [] {
      StepKeepsInv(s, events[0], parameters);
      hide Inv, Timely, Step, Enabled;
      RunKeepsTimely(Step(s, events[0], parameters), events[1..], parameters, lag);
    }
  }

  lemma {:induction false} RunAppend(s: State, a: seq<Event>, b: seq<Event>, parameters: nat, lag: nat)
    ensures Run(s, a + b, parameters) == Run(Run(s, a, parameters), b, parameters)
    ensures IsRun(s, a, parameters) && IsRun(Run(s, a, parameters), b, parameters) ==> IsRun(s, a + b, parameters)
    ensures HeldUpAtMost(s, a, parameters, lag) && HeldUpAtMost(Run(s, a, parameters), b, parameters, lag)
            ==> HeldUpAtMost(s, a + b, parameters, lag)
    decreases |a|
  {
    hide Step, Enabled;
    if a == [] {
      assert a + b == b;
    } else {
      assert (a + b)[0] == a[0] && (a + b)[1..] == a[1..] + b;
      RunAppend(Step(s, a[0], parameters), a[1..], b, parameters, lag);
    }
  }

  // A driver that looks at the clock next, held up for n ticks.
  function After(s: State, n: nat): State {
    s.(ticks := (s.ticks + n) % WRAP, elapsed := s.elapsed + n, sinceCheck := s.sinceCheck + n)
  }

  function Ticks(n: nat): seq<Event> { seq(n, _ => Tick) }

  lemma TickIsAfter(s: State, n: nat, parameters: nat)
    requires s.pc == CheckTime && 0 <= s.ticks < WRAP
    ensures Step(s, Tick, parameters) == After(s, 1) && After(After(s, 1), n) == After(s, n + 1) && After(s, 0) == s
    ensures Ticks(n + 1) != [] && Ticks(n + 1)[0] == Tick && Ticks(n + 1)[1..] == Ticks(n)
  {
    assert ((s.ticks + 1) % WRAP + n) % WRAP == (s.ticks + n + 1) % WRAP;
  }

  lemma {:induction false} HeldUp(s: State, n: nat, parameters: nat, lag: nat)
    requires s.pc == CheckTime && s.sinceCheck + n <= lag && 0 <= s.ticks < WRAP
    ensures IsRun(s, Ticks(n), parameters) && HeldUpAtMost(s, Ticks(n), parameters, lag)
    ensures Run(s, Ticks(n), parameters) == After(s, n)
    decreases n
  {
    hide Step, Ticks;
    if n == 0 {
      TickIsAfter(s, 0, parameters);
      assert Ticks(0) == [] by { NoTicks(); }
    } else {
      TickIsAfter(s, n - 1, parameters);
      HeldUp(After(s, 1), n - 1, parameters, lag);
    }
  }

  lemma NoTicks()
    ensures Ticks(0) == []
  {
  }

  // The wait for a command with one parameter that is never answered.
  function Waiting(ticks: int, elapsed: nat, sinceCheck: nat): State {
    State(CheckTime, true, ticks, 0, 1, false, elapsed, sinceCheck)
  }

  const SENT := State(CommandSent, false, 0, 0, 0, false, 0, 0)

  lemma Begins(lag: nat)
    ensures var events := [Driver, Driver, Driver];
            IsRun(SENT, events, 1) && HeldUpAtMost(SENT, events, 1, lag) && Run(SENT, events, 1) == Waiting(0, 0, 0)
  {
    var s1 := Step(SENT, Driver, 1);
    var s2 := Step(s1, Driver, 1);
    var t := Waiting(0, 0, 0);
    assert Step(s2, Driver, 1) == t;
    assert IsRun(t, [], 1) && HeldUpAtMost(t, [], 1, lag) && Run(t, [], 1) == t;
    assert [Driver][1..] == [] && [Driver, Driver][1..] == [Driver] && [Driver, Driver, Driver][1..] == [Driver, Driver];
    assert IsRun(s2, [Driver], 1) && HeldUpAtMost(s2, [Driver], 1, lag) && Run(s2, [Driver], 1) == t;
    assert IsRun(s1, [Driver, Driver], 1) && HeldUpAtMost(s1, [Driver, Driver], 1, lag) && Run(s1, [Driver, Driver], 1) == t;
  }

  // A look at a clock that has not reached the timeout, then the halt, which the
  // next tick ends.
  const LOOK_AND_HALT := [Driver, Driver, Driver, Tick]

  lemma LooksAndHalts(s: State, lag: nat)
    requires s == Waiting(s.ticks, s.elapsed, s.sinceCheck) && 0 <= s.ticks < TIMEOUT && 0 < lag
    ensures IsRun(s, LOOK_AND_HALT, 1) && HeldUpAtMost(s, LOOK_AND_HALT, 1, lag)
    ensures Run(s, LOOK_AND_HALT, 1) == Waiting(s.ticks + 1, s.elapsed + 1, 1)
  {
    var s1 := Step(s, Driver, 1);
    var s2 := Step(s1, Driver, 1);
    var s3 := Step(s2, Driver, 1);
    var t := Waiting(s.ticks + 1, s.elapsed + 1, 1);
    assert Step(s3, Tick, 1) == t;
    var c, b, a := [Tick], [Driver, Tick], [Driver, Driver, Tick];
    assert IsRun(t, [], 1) && HeldUpAtMost(t, [], 1, lag) && Run(t, [], 1) == t;
    assert c[1..] == [] && b[1..] == c && a[1..] == b && LOOK_AND_HALT[1..] == a;
    assert IsRun(s3, c, 1) && HeldUpAtMost(s3, c, 1, lag) && Run(s3, c, 1) == t;
    assert IsRun(s2, b, 1) && HeldUpAtMost(s2, b, 1, lag) && Run(s2, b, 1) == t;
    assert IsRun(s1, a, 1) && HeldUpAtMost(s1, a, 1, lag) && Run(s1, a, 1) == t;
  }

  // The driver looks at tick 2999 and then again when the counter has come round.
  function TurnOfTheCounter(lag: nat): seq<Event>
    requires WRAP - TIMEOUT < lag
  {
    [Driver, Driver, Driver] + (Ticks(TIMEOUT - 1) + (LOOK_AND_HALT +
    (Ticks(WRAP - TIMEOUT) + (LOOK_AND_HALT + Ticks(lag - 1)))))
  }

  lemma Overstays(lag: nat)
    requires WRAP - TIMEOUT < lag
    ensures var events := TurnOfTheCounter(lag);
            IsRun(SENT, events, 1) && HeldUpAtMost(SENT, events, 1, lag) && !InTime(Run(SENT, events, 1), lag)
  {
    hide IsRun, HeldUpAtMost, Run, Ticks;
    var a, b, c, d := [Driver, Driver, Driver], Ticks(TIMEOUT - 1), LOOK_AND_HALT, Ticks(WRAP - TIMEOUT);
    var e := Ticks(lag - 1);
    var s1, s2 := Waiting(0, 0, 0), Waiting(TIMEOUT - 1, TIMEOUT - 1, TIMEOUT - 1);
    var s3, s4 := Waiting(TIMEOUT, TIMEOUT, 1), Waiting(0, WRAP, WRAP - TIMEOUT + 1);
    var s5 := Waiting(1, WRAP + 1, 1);
    Begins(lag);
    HeldUp(s1, TIMEOUT - 1, 1, lag);
    LooksAndHalts(s2, lag);
    HeldUp(s3, WRAP - TIMEOUT, 1, lag);
    LooksAndHalts(s4, lag);
    HeldUp(s5, lag - 1, 1, lag);
    RunAppend(s4, c, e, 1, lag);
    RunAppend(s3, d, c + e, 1, lag);
    RunAppend(s2, c, d + (c + e), 1, lag);
    RunAppend(s1, b, c + (d + (c + e)), 1, lag);
    RunAppend(SENT, a, b + (c + (d + (c + e))), 1, lag);
  }

  // The driver gives up in time exactly when no hold-up is so long that the counter
  // may come round: a hold-up of more than 2^32 - 3000 ticks can hide the timeout.
  lemma GivesUpInTimeIff(lag: nat)
    ensures (forall s: State, events: seq<Event>, parameters: nat ::
              1 <= parameters && AtStart(s) && IsRun(s, events, parameters) && HeldUpAtMost(s, events, parameters, lag)
              ==> InTime(Run(s, events, parameters), lag))
            <==> lag <= WRAP - TIMEOUT
  {
    if lag <= WRAP - TIMEOUT {
      forall s: State, events: seq<Event>, parameters: nat |
        1 <= parameters && AtStart(s) && IsRun(s, events, parameters) && HeldUpAtMost(s, events, parameters, lag)
        ensures InTime(Run(s, events, parameters), lag)
      {
        RunKeepsTimely(s, events, parameters, lag);
      }
    } else {
      Overstays(lag);
    }
  }

  // ----- Commands without parameters -----

  // A run after which the answer has come and the driver still waits for it.
  ghost predicate Loses(s: State, events: seq<Event>, parameters: nat) {
    && AtStart(s) && IsRun(s, events, parameters)
    && Run(s, events, parameters).completed && Run(s, events, parameters).waiting
  }

  // A command without parameters could be answered before the flag is set; then
  // the driver would wait for an answer that has already come.  With at least one
  // parameter that cannot happen.
  lemma AnswerLostIff(parameters: nat)
    ensures (exists s: State, events: seq<Event> :: Loses(s, events, parameters)) <==> parameters == 0
  {
    if parameters == 0 {
      var events := [Irq6, Driver];
      var s1 := Step(SENT, Irq6, parameters);
      var s2 := Step(s1, Driver, parameters);
      assert events[1..] == [Driver] && [Driver][1..] == [];
      assert IsRun(s2, [], parameters) && Run(s2, [], parameters) == s2;
      assert IsRun(s1, [Driver], parameters) && Run(s1, [Driver], parameters) == s2;
      assert Loses(SENT, events, parameters);
    } else {
      forall s: State, events: seq<Event> | AtStart(s) && IsRun(s, events, parameters)
        ensures !Loses(s, events, parameters)
      {
        RunKeepsInv(s, events, parameters);
      }
    }
  }
}
