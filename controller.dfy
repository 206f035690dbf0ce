/** The controller state machine: one call of the entry point advances the
    state by exactly one step along Collect -> Log -> DoMath -> Actuate -> Wait,
    and the timer callback sets the one-bit period flag that Wait consumes.
    The file-scope statics of the firmware are the fields of class Context;
    the functions before it give the meaning of each step on a snapshot of
    those fields, and the lemmas relate several steps. */
module Controller {
  import opened ControlAlgorithm

  /** The enumerators of the state type, with the values C gives them. */
  const CTRL_COLLECT_DATA: int := 0
  const CTRL_LOG_DATA: int := 1
  const CTRL_DO_MATH: int := 2
  const CTRL_ACTUATE_FRIDGE: int := 3
  const CTRL_WAIT_FOR_TIMER: int := 4
  const CTRL_FAILED: int := 5

  /** The states of normal operation, the fixed cycle. */
  predicate InCycle(state: int)
  {
    CTRL_COLLECT_DATA <= state <= CTRL_WAIT_FOR_TIMER
  }

  /** A snapshot of the controller's variables. sentCommands records every
      actuator write and displayedTemps the average handed to the display
      text at each log step, in order. */
  datatype Vars = Vars(
    state: int,
    periodHasPassed: bool,
    commands: ActuatorCommands,
    setTemp: real,
    temps: seq<real>,
    avgTemp: real,
    counter: nat,
    sentCommands: seq<ActuatorCommands>,
    displayedTemps: seq<real>)

  /** The state the dispatcher moves to from `state`. */
  function NextState(state: int, periodHasPassed: bool): (next: int)
    ensures InCycle(state) && state != CTRL_WAIT_FOR_TIMER ==> next == state + 1
    ensures state == CTRL_WAIT_FOR_TIMER ==>
      next == (if periodHasPassed then CTRL_COLLECT_DATA else CTRL_WAIT_FOR_TIMER)
    ensures !InCycle(state) ==> next == CTRL_FAILED
  {
    if state == CTRL_COLLECT_DATA then CTRL_LOG_DATA
    else if state == CTRL_LOG_DATA then CTRL_DO_MATH
    else if state == CTRL_DO_MATH then CTRL_ACTUATE_FRIDGE
    else if state == CTRL_ACTUATE_FRIDGE then CTRL_WAIT_FOR_TIMER
    else if state == CTRL_WAIT_FOR_TIMER then
      (if periodHasPassed then CTRL_COLLECT_DATA else CTRL_WAIT_FOR_TIMER)
    else CTRL_FAILED
  }

  /** Collect: take the setpoint and the probe readings the collaborators deliver. */
  function CollectEffect(v: Vars, readings: seq<real>, setTemp: real): Vars
  {
    v.(setTemp := setTemp, temps := readings)
  }

  /** Log: the display text is derived from the current average. */
  function LogEffect(v: Vars): Vars
  {
    v.(displayedTemps := v.displayedTemps + [v.avgTemp])
  }

  /** DoMath: run the control algorithm on the buffered readings. */
  function DoMathEffect(v: Vars, loopFrequency: nat): Vars
    requires |v.temps| >= 1
  {
    var o := ControlStep(v.temps, v.setTemp, v.commands, v.counter, loopFrequency);
    v.(avgTemp := o.avgTemp, commands := o.commands, counter := o.counter)
  }

  /** Actuate: the current commands are written to the actuators. */
  function ActuateEffect(v: Vars): Vars
  {
    v.(sentCommands := v.sentCommands + [v.commands])
  }

  /** Wait: a pending period flag is consumed. */
  function WaitEffect(v: Vars): Vars
  {
    if v.periodHasPassed then v.(periodHasPassed := false) else v
  }

  /** One call of the entry point. `readings` and `setTemp` are what the
      acquisition and settings collaborators deliver if this call collects. */
  function Step(v: Vars, readings: seq<real>, setTemp: real, loopFrequency: nat): (w: Vars)
    requires |v.temps| >= 1 && |readings| == |v.temps|
    ensures |w.temps| == |v.temps|
    ensures w.state == NextState(v.state, v.periodHasPassed)
    ensures !InCycle(v.state) ==> w == v.(state := CTRL_FAILED)
    ensures v.sentCommands <= w.sentCommands && v.displayedTemps <= w.displayedTemps
  {
    var e :=
      if v.state == CTRL_COLLECT_DATA then CollectEffect(v, readings, setTemp)
      else if v.state == CTRL_LOG_DATA then LogEffect(v)
      else if v.state == CTRL_DO_MATH then DoMathEffect(v, loopFrequency)
      else if v.state == CTRL_ACTUATE_FRIDGE then ActuateEffect(v)
      else if v.state == CTRL_WAIT_FOR_TIMER then WaitEffect(v)
      else v;
    e.(state := NextState(v.state, v.periodHasPassed))
  }

  /** The timer interrupt: the period flag is set. */
  function Tick(v: Vars): (w: Vars)
    ensures w.periodHasPassed && w.(periodHasPassed := v.periodHasPassed) == v
  {
    v.(periodHasPassed := true)
  }

  /** What happens to the controller: a timer interrupt, or a call of the
      entry point with what the collaborators would deliver to it. */
  datatype Event = TimerTick | Invoke(readings: seq<real>, setTemp: real)

  predicate Fits(events: seq<Event>, n: nat)
  {
    forall k :: 0 <= k < |events| ==> events[k].Invoke? ==> |events[k].readings| == n
  }

  /** The variables after the events, in order. */
  function Exec(v: Vars, events: seq<Event>, loopFrequency: nat): (w: Vars)
    requires |v.temps| >= 1 && Fits(events, |v.temps|)
    ensures |w.temps| == |v.temps|
    ensures v.sentCommands <= w.sentCommands && v.displayedTemps <= w.displayedTemps
    decreases |events|
  {
    if |events| == 0 then v
    else
      var u := match events[0]
        case TimerTick => Tick(v)
        case Invoke(r, s) => Step(v, r, s, loopFrequency);
      Exec(u, events[1..], loopFrequency)
  }

  /** The variables right after initialisation: static zero-initialisation,
      then the state set to Collect. The zero value of the command enums is
      not known here, so the initial commands are a parameter. */
  function Initial(numProbes: nat, initialCommands: ActuatorCommands): (v: Vars)
    ensures v.state == CTRL_COLLECT_DATA && !v.periodHasPassed && v.commands == initialCommands
    ensures v.counter == 0 && v.avgTemp == 0.0 && v.setTemp == 0.0
    ensures |v.temps| == numProbes && forall i :: 0 <= i < numProbes ==> v.temps[i] == 0.0
    ensures v.sentCommands == [] && v.displayedTemps == []
  {
    Vars(CTRL_COLLECT_DATA, false, initialCommands, 0.0, seq(numProbes, _ => 0.0), 0.0, 0, [], [])
  }

  // ---------------------------------------------------------------------------
  // The failed state

  /** A call in the failed state, or with any value outside the enumeration,
      leaves the controller in the failed state and changes nothing else. */
  lemma FailedOnUnrecognised(v: Vars, readings: seq<real>, setTemp: real, loopFrequency: nat)
    requires |v.temps| >= 1 && |readings| == |v.temps|
    requires !InCycle(v.state)
    ensures Step(v, readings, setTemp, loopFrequency) == v.(state := CTRL_FAILED)
  {
  }

  /** The failed state is absorbing: whatever events follow, the controller
      stays failed, never writes the actuators or the display again, and only
      the period flag (written by the interrupt) can change. */
  lemma {:induction false} FailedIsAbsorbing(v: Vars, events: seq<Event>, loopFrequency: nat)
    requires |v.temps| >= 1 && Fits(events, |v.temps|)
    requires v.state == CTRL_FAILED
    ensures Exec(v, events, loopFrequency).(periodHasPassed := v.periodHasPassed) == v
    decreases |events|
  {
    if |events| > 0 {
      var u := match events[0]
        case TimerTick => Tick(v)
        case Invoke(r, s) => Step(v, r, s, loopFrequency);
      assert u.(periodHasPassed := v.periodHasPassed) == v;
      FailedIsAbsorbing(u, events[1..], loopFrequency);
    }
  }

  /** Normal operation never reaches the failed state: from a state of the
      cycle, every sequence of events stays in the cycle. */
  lemma {:induction false} CycleIsClosed(v: Vars, events: seq<Event>, loopFrequency: nat)
    requires |v.temps| >= 1 && Fits(events, |v.temps|)
    requires InCycle(v.state)
    ensures InCycle(Exec(v, events, loopFrequency).state)
    decreases |events|
  {
    if |events| > 0 {
      var u := match events[0]
        case TimerTick => Tick(v)
        case Invoke(r, s) => Step(v, r, s, loopFrequency);
      CycleIsClosed(u, events[1..], loopFrequency);
    }
  }

  /** From initialisation, the controller never fails. */
  lemma InitialNeverFails(numProbes: nat, initialCommands: ActuatorCommands,
                          events: seq<Event>, loopFrequency: nat)
    requires numProbes >= 1 && Fits(events, numProbes)
    ensures InCycle(Exec(Initial(numProbes, initialCommands), events, loopFrequency).state)
  {
    CycleIsClosed(Initial(numProbes, initialCommands), events, loopFrequency);
  }

  // ---------------------------------------------------------------------------
  // Waiting for the period flag

  /** Without a pending period flag, the wait state spins: any number of calls
      leave every variable as it was. */
  lemma {:induction false} WaitSpins(v: Vars, events: seq<Event>, loopFrequency: nat)
    requires |v.temps| >= 1 && Fits(events, |v.temps|)
    requires v.state == CTRL_WAIT_FOR_TIMER && !v.periodHasPassed
    requires forall k :: 0 <= k < |events| ==> events[k].Invoke?
    ensures Exec(v, events, loopFrequency) == v
    decreases |events|
  {
    if |events| > 0 {
      assert events[0].Invoke?;
      WaitSpins(v, events[1..], loopFrequency);
    }
  }

  /** Ticks are coalesced: two timer interrupts before the wait state runs
      give one advance to Collect with the flag cleared, exactly as one does;
      after that the controller needs a fresh tick to leave the wait state. */
  lemma TicksCoalesce(v: Vars, r: seq<real>, s: real, loopFrequency: nat)
    requires |v.temps| >= 1 && |r| == |v.temps|
    requires v.state == CTRL_WAIT_FOR_TIMER
    ensures var w := Exec(v, [TimerTick, TimerTick, Invoke(r, s)], loopFrequency);
      w == Exec(v, [TimerTick, Invoke(r, s)], loopFrequency) &&
      w == v.(state := CTRL_COLLECT_DATA, periodHasPassed := false)
  {
    var once := Tick(v);
    assert Tick(once) == once;
    assert Exec(v, [TimerTick, TimerTick, Invoke(r, s)], loopFrequency)
        == Exec(Tick(once), [Invoke(r, s)], loopFrequency);
    assert Exec(v, [TimerTick, Invoke(r, s)], loopFrequency)
        == Exec(once, [Invoke(r, s)], loopFrequency);
  }

  // ---------------------------------------------------------------------------
  // A whole cycle

  /** One full cycle from Collect: four calls, a timer tick, and the call that
      consumes it bring the controller back to Collect, having taken the new
      readings and setpoint, displayed the PREVIOUS cycle's average, run the
      control algorithm exactly once and written its commands to the
      actuators exactly once. */
  lemma OneFullCycle(v: Vars, r: seq<real>, s: real, loopFrequency: nat)
    requires |v.temps| >= 1 && |r| == |v.temps|
    requires v.state == CTRL_COLLECT_DATA
    ensures
      var w := Exec(v, [Invoke(r, s), Invoke(r, s), Invoke(r, s), Invoke(r, s), TimerTick, Invoke(r, s)],
                    loopFrequency);
      var o := ControlStep(r, s, v.commands, v.counter, loopFrequency);
      w == v.(temps := r, setTemp := s, avgTemp := o.avgTemp, commands := o.commands, counter := o.counter,
               displayedTemps := v.displayedTemps + [v.avgTemp],
               sentCommands := v.sentCommands + [o.commands],
               periodHasPassed := false)
  {
    var e := Invoke(r, s);
    var v2 := Exec(v, [e, e], loopFrequency);
    FirstHalfCycle(v, r, s, loopFrequency);
    var o := ControlStep(r, s, v.commands, v.counter, loopFrequency);
    var v4 := Exec(v2, [e, e], loopFrequency);
    SecondHalfCycle(v2, r, s, loopFrequency);
    ClosingTick(v4, r, s, loopFrequency);
    ExecSplit(v, [e, e], [e, e, TimerTick, e], loopFrequency);
    ExecSplit(v2, [e, e], [TimerTick, e], loopFrequency);
    assert [e, e] + [e, e, TimerTick, e] == [e, e, e, e, TimerTick, e];
    assert [e, e] + [TimerTick, e] == [e, e, TimerTick, e];
  }

  /** A tick while waiting: the next call consumes it and returns to Collect. */
  lemma ClosingTick(v: Vars, r: seq<real>, s: real, loopFrequency: nat)
    requires |v.temps| >= 1 && |r| == |v.temps|
    requires v.state == CTRL_WAIT_FOR_TIMER
    ensures Exec(v, [TimerTick, Invoke(r, s)], loopFrequency) ==
      v.(periodHasPassed := false, state := CTRL_COLLECT_DATA)
  {
    assert Exec(Tick(v), [Invoke(r, s)], loopFrequency) == Step(Tick(v), r, s, loopFrequency);
  }

  /** Collect and Log: the readings and setpoint are taken and the previous
      average is displayed. */
  lemma FirstHalfCycle(v: Vars, r: seq<real>, s: real, loopFrequency: nat)
    requires |v.temps| >= 1 && |r| == |v.temps|
    requires v.state == CTRL_COLLECT_DATA
    ensures Exec(v, [Invoke(r, s), Invoke(r, s)], loopFrequency) ==
      v.(temps := r, setTemp := s, displayedTemps := v.displayedTemps + [v.avgTemp], state := CTRL_DO_MATH)
  {
    var v1 := Step(v, r, s, loopFrequency);
    assert v1 == v.(setTemp := s, temps := r, state := CTRL_LOG_DATA);
    assert Exec(v1, [Invoke(r, s)], loopFrequency) == Step(v1, r, s, loopFrequency);
  }

  /** DoMath and Actuate: the control algorithm runs on the collected
      readings and its commands are written to the actuators. */
  lemma SecondHalfCycle(v: Vars, r: seq<real>, s: real, loopFrequency: nat)
    requires |v.temps| >= 1 && |r| == |v.temps|
    requires v.state == CTRL_DO_MATH
    ensures var o := ControlStep(v.temps, v.setTemp, v.commands, v.counter, loopFrequency);
      Exec(v, [Invoke(r, s), Invoke(r, s)], loopFrequency) ==
      v.(avgTemp := o.avgTemp, commands := o.commands, counter := o.counter,
         sentCommands := v.sentCommands + [o.commands], state := CTRL_WAIT_FOR_TIMER)
  {
    var v3 := Step(v, r, s, loopFrequency);
    assert Exec(v3, [Invoke(r, s)], loopFrequency) == Step(v3, r, s, loopFrequency);
  }

  /** The events of one full cycle per input, in one fixed pattern: four
      calls from Collect, a timer tick once Actuate has run, and the call in
      Wait that consumes it. */
  function CycleEvents(inputs: seq<CycleInput>): seq<Event>
  {
    if |inputs| == 0 then []
    else
      var e := Invoke(inputs[0].temps, inputs[0].setTemp);
      [e, e, e, e, TimerTick, e] + CycleEvents(inputs[1..])
  }

  predicate Sized(inputs: seq<CycleInput>, n: nat)
  {
    forall k :: 0 <= k < |inputs| ==> |inputs[k].temps| == n
  }

  lemma {:induction false} CycleEventsFit(inputs: seq<CycleInput>, n: nat)
    requires Sized(inputs, n)
    ensures Fits(CycleEvents(inputs), n)
    decreases |inputs|
  {
    if |inputs| > 0 {
      CycleEventsFit(inputs[1..], n);
      var e := Invoke(inputs[0].temps, inputs[0].setTemp);
      var rest := CycleEvents(inputs[1..]);
      assert CycleEvents(inputs) == [e, e, e, e, TimerTick, e] + rest;
      forall k | 0 <= k < |CycleEvents(inputs)| && CycleEvents(inputs)[k].Invoke?
        ensures |CycleEvents(inputs)[k].readings| == n
      {
        if k >= 6 {
          assert CycleEvents(inputs)[k] == rest[k - 6];
        }
      }
    }
  }

  lemma {:induction false} ExecSplit(v: Vars, a: seq<Event>, b: seq<Event>, loopFrequency: nat)
    requires |v.temps| >= 1 && Fits(a, |v.temps|) && Fits(b, |v.temps|)
    ensures Fits(a + b, |v.temps|)
    ensures Exec(v, a + b, loopFrequency) == Exec(Exec(v, a, loopFrequency), b, loopFrequency)
    decreases |a|
  {
    assert forall k :: 0 <= k < |a + b| ==> (a + b)[k] == if k < |a| then a[k] else b[k - |a|];
    if |a| == 0 {
      assert a + b == b;
    } else {
      assert (a + b)[0] == a[0];
      assert (a + b)[1..] == a[1..] + b;
      var u := match a[0]
        case TimerTick => Tick(v)
        case Invoke(r, s) => Step(v, r, s, loopFrequency);
      ExecSplit(u, a[1..], b, loopFrequency);
    }
  }

  /** The commands each cycle computes, and so writes to the actuators, in order. */
  function Sends(inputs: seq<CycleInput>, start: ControlVars, loopFrequency: nat): (r: seq<ActuatorCommands>)
    requires WellFormed(inputs)
    ensures |r| == |inputs|
    decreases |inputs|
  {
    if |inputs| == 0 then []
    else
      var next := After(start, inputs[0], loopFrequency);
      [next.commands] + Sends(inputs[1..], next, loopFrequency)
  }

  /** While the counter cannot reach the minimum off-time, every command a
      cycle writes keeps an OFF compressor OFF. */
  lemma {:induction false} SendsStayOff(inputs: seq<CycleInput>, start: ControlVars, loopFrequency: nat)
    requires WellFormed(inputs)
    requires start.commands.compressor == CompressorOff
    requires start.counter + |inputs| < MinOffCycles(loopFrequency)
    ensures forall c :: c in Sends(inputs, start, loopFrequency) ==> c.compressor == CompressorOff
    decreases |inputs|
  {
    if |inputs| > 0 {
      var next := After(start, inputs[0], loopFrequency);
      assert next.commands.compressor == CompressorOff;
      SendsStayOff(inputs[1..], next, loopFrequency);
    }
  }

  /** Whole cycles from Collect run the control algorithm once per cycle: the
      commands and counter follow `Run`, and each cycle appends the commands
      it computed to the actuator writes. */
  lemma {:induction false} CyclesFollowRun(v: Vars, inputs: seq<CycleInput>, loopFrequency: nat)
    requires |v.temps| >= 1 && v.state == CTRL_COLLECT_DATA && Sized(inputs, |v.temps|)
    ensures WellFormed(inputs) && Fits(CycleEvents(inputs), |v.temps|)
    ensures var w := Exec(v, CycleEvents(inputs), loopFrequency);
      var start := ControlVars(v.commands, v.counter);
      w.state == CTRL_COLLECT_DATA &&
      ControlVars(w.commands, w.counter) == Run(inputs, start, loopFrequency) &&
      w.sentCommands == v.sentCommands + Sends(inputs, start, loopFrequency)
    decreases |inputs|
  {
    CycleEventsFit(inputs, |v.temps|);
    if |inputs| > 0 {
      var x := inputs[0];
      var e := Invoke(x.temps, x.setTemp);
      ExecFirstCycle(v, inputs, loopFrequency);
      HeadCycle(v, x, loopFrequency);
      var u := Exec(v, [e, e, e, e, TimerTick, e], loopFrequency);
      CyclesFollowRun(u, inputs[1..], loopFrequency);
      SendsFirst(v.sentCommands, inputs, ControlVars(v.commands, v.counter), loopFrequency);
    }
  }

  /** The events of several cycles run the first cycle, then the rest. */
  lemma ExecFirstCycle(v: Vars, inputs: seq<CycleInput>, loopFrequency: nat)
    requires |v.temps| >= 1 && Sized(inputs, |v.temps|) && |inputs| > 0
    ensures var e := Invoke(inputs[0].temps, inputs[0].setTemp);
      Fits(CycleEvents(inputs), |v.temps|) && Fits(CycleEvents(inputs[1..]), |v.temps|) &&
      Exec(v, CycleEvents(inputs), loopFrequency) ==
      Exec(Exec(v, [e, e, e, e, TimerTick, e], loopFrequency), CycleEvents(inputs[1..]), loopFrequency)
  {
    var x := inputs[0];
    var e := Invoke(x.temps, x.setTemp);
    var head := [e, e, e, e, TimerTick, e];
    CycleEventsFit(inputs, |v.temps|);
    CycleEventsFit(inputs[1..], |v.temps|);
    assert CycleEvents(inputs) == head + CycleEvents(inputs[1..]);
    ExecSplit(v, head, CycleEvents(inputs[1..]), loopFrequency);
  }

  /** The first cycle's write comes first. */
  lemma SendsFirst(prefix: seq<ActuatorCommands>, inputs: seq<CycleInput>, start: ControlVars, loopFrequency: nat)
    requires WellFormed(inputs) && |inputs| > 0
    ensures var a := After(start, inputs[0], loopFrequency);
      prefix + Sends(inputs, start, loopFrequency) == prefix + [a.commands] + Sends(inputs[1..], a, loopFrequency)
  {
    var a := After(start, inputs[0], loopFrequency);
    assert Sends(inputs, start, loopFrequency) == [a.commands] + Sends(inputs[1..], a, loopFrequency);
  }

  /** One whole cycle from Collect, in terms of the control algorithm's `After`. */
  lemma HeadCycle(v: Vars, x: CycleInput, loopFrequency: nat)
    requires |v.temps| >= 1 && v.state == CTRL_COLLECT_DATA && |x.temps| == |v.temps|
    ensures var e := Invoke(x.temps, x.setTemp);
      var u := Exec(v, [e, e, e, e, TimerTick, e], loopFrequency);
      var a := After(ControlVars(v.commands, v.counter), x, loopFrequency);
      u.state == CTRL_COLLECT_DATA && ControlVars(u.commands, u.counter) == a &&
      u.sentCommands == v.sentCommands + [a.commands]
  {
    OneFullCycle(v, x.temps, x.setTemp, loopFrequency);
  }

  /** The minimum off-time, as seen at the actuators: after a cycle whose
      average is below its setpoint, that cycle's actuator write and the
      writes of the next MinOffCycles - 1 cycles all command the compressor
      OFF, whatever the readings and setpoints of those cycles. */
  lemma MinimumOffTimeAtActuators(v: Vars, input: CycleInput, later: seq<CycleInput>, loopFrequency: nat)
    requires |v.temps| >= 1 && v.state == CTRL_COLLECT_DATA
    requires |input.temps| == |v.temps| && Mean(input.temps) < input.setTemp
    requires Sized(later, |v.temps|) && |later| <= MinOffCycles(loopFrequency) - 1
    ensures Fits(CycleEvents([input] + later), |v.temps|)
    ensures var w := Exec(v, CycleEvents([input] + later), loopFrequency);
      |w.sentCommands| == |v.sentCommands| + 1 + |later| &&
      forall c :: c in w.sentCommands[|v.sentCommands|..] ==> c.compressor == CompressorOff
  {
    var inputs := [input] + later;
    assert inputs[0] == input && inputs[1..] == later;
    CyclesFollowRun(v, inputs, loopFrequency);
    var start := ControlVars(v.commands, v.counter);
    var off := After(start, input, loopFrequency);
    SendsStayOff(later, off, loopFrequency);
    var w := Exec(v, CycleEvents(inputs), loopFrequency);
    assert w.sentCommands[|v.sentCommands|..] == [off.commands] + Sends(later, off, loopFrequency);
  }

  /** The actuator commands change only in the DoMath step, and the actuators
      and the display are written only in the Actuate and Log steps. */
  lemma WhereOutputsChange(v: Vars, readings: seq<real>, setTemp: real, loopFrequency: nat)
    requires |v.temps| >= 1 && |readings| == |v.temps|
    ensures var w := Step(v, readings, setTemp, loopFrequency);
      (w.commands != v.commands || w.counter != v.counter ==> v.state == CTRL_DO_MATH) &&
      (w.sentCommands != v.sentCommands ==>
         v.state == CTRL_ACTUATE_FRIDGE && w.sentCommands == v.sentCommands + [v.commands]) &&
      (w.displayedTemps != v.displayedTemps ==>
         v.state == CTRL_LOG_DATA && w.displayedTemps == v.displayedTemps + [v.avgTemp]) &&
      (w.temps != v.temps || w.setTemp != v.setTemp ==> v.state == CTRL_COLLECT_DATA)
  {
  }

  // ---------------------------------------------------------------------------
  // The controller

  /** The controller's file-scope variables and its entry points. */
  class Context {
    /** CTRL_LOOP_FREQUENCY: control-loop cycles per second. */
    const loopFrequency: nat
    /** DataBuffer.temperature: one reading per probe (NUM_TEMP_PROBES of them). */
    const temperature: array<real>

    var currentState: int
    var periodHasPassed: bool
    var commands: ActuatorCommands
    /** UserSettings.setTemp */
    var setTemp: real
    var avgTemp: real
    /** The function-static counter of DoMath_State. */
    var numLoopsSinceCompressorOff: nat
    var sentCommands: seq<ActuatorCommands>
    var displayedTemps: seq<real>

    ghost predicate Valid()
      reads this
    {
      temperature.Length >= 1 && loopFrequency >= 1
    }

    ghost function Snapshot(): Vars
      reads this, temperature
    {
      Vars(currentState, periodHasPassed, commands, setTemp, temperature[..], avgTemp,
           numLoopsSinceCompressorOff, sentCommands, displayedTemps)
    }

    /** Zero-initialised statics followed by Controller_Init. */
    constructor Init(numProbes: nat, loopFrequency: nat, initialCommands: ActuatorCommands)
      requires numProbes >= 1 && loopFrequency >= 1
      ensures Valid() && fresh(temperature)
      ensures temperature.Length == numProbes && this.loopFrequency == loopFrequency
      ensures Snapshot() == Initial(numProbes, initialCommands)
    {
      this.loopFrequency := loopFrequency;
      temperature := new real[numProbes](_ => 0.0);
      currentState := CTRL_COLLECT_DATA;
      periodHasPassed := false;
      commands := initialCommands;
      setTemp := 0.0;
      avgTemp := 0.0;
      numLoopsSinceCompressorOff := 0;
      sentCommands := [];
      displayedTemps := [];
    }

    /** The entry point: advance exactly one step. */
    method Advance(readings: seq<real>, newSetTemp: real)
      requires Valid() && |readings| == temperature.Length
      modifies this, temperature
      ensures Valid()
      ensures Snapshot() == Step(old(Snapshot()), readings, newSetTemp, loopFrequency)
    {
      var next: int;
      if currentState == CTRL_COLLECT_DATA {
        next := CollectDataState(readings, newSetTemp);
      } else if currentState == CTRL_LOG_DATA {
        next := LogDataState();
      } else if currentState == CTRL_DO_MATH {
        next := DoMathState();
      } else if currentState == CTRL_ACTUATE_FRIDGE {
        next := ActuateFridgeState();
      } else if currentState == CTRL_WAIT_FOR_TIMER {
        next := WaitForTimerState();
      } else if currentState == CTRL_FAILED {
        next := FailedState();
      } else {
        next := CTRL_FAILED;
      }
      currentState := next;
    }

    method CollectDataState(readings: seq<real>, newSetTemp: real) returns (next: int)
      requires Valid() && |readings| == temperature.Length
      modifies this`setTemp, temperature
      ensures next == CTRL_LOG_DATA
      ensures Snapshot() == CollectEffect(old(Snapshot()), readings, newSetTemp)
    {
      setTemp := newSetTemp;
      forall i | 0 <= i < temperature.Length {
        temperature[i] := readings[i];
      }
      next := CTRL_LOG_DATA;
    }

    method LogDataState() returns (next: int)
      modifies this`displayedTemps
      ensures next == CTRL_DO_MATH
      ensures Snapshot() == LogEffect(old(Snapshot()))
    {
      displayedTemps := displayedTemps + [avgTemp];
      next := CTRL_DO_MATH;
    }

    /** The control algorithm, as the firmware runs it: bump the counter,
        average the probes, fan control, compressor control. The probe buffer
        and the setpoint are not written. */
    method DoMathState() returns (next: int)
      requires Valid()
      modifies this`numLoopsSinceCompressorOff, this`avgTemp, this`commands
      ensures next == CTRL_ACTUATE_FRIDGE
      ensures Snapshot() == DoMathEffect(old(Snapshot()), loopFrequency)
    {
      ghost var before := Snapshot();
      numLoopsSinceCompressorOff := numLoopsSinceCompressorOff + 1;
      AverageProbes();
      FanControl();
      CompressorControl();
      assert ControlStep(before.temps, before.setTemp, before.commands, before.counter, loopFrequency)
          == ControlOutput(avgTemp, commands, numLoopsSinceCompressorOff);
      next := CTRL_ACTUATE_FRIDGE;
    }

    /** The running average: each reading's share is added in probe order. */
    method AverageProbes()
      requires Valid()
      modifies this`avgTemp
      ensures avgTemp == Mean(temperature[..])
    {
      var n := temperature.Length;
      avgTemp := 0.0;
      for i := 0 to n
        invariant avgTemp == Sum(temperature[..i]) / (n as real)
      {
        assert temperature[..i + 1][..i] == temperature[..i];
        DivideSum(Sum(temperature[..i]), temperature[i], n as real);
        avgTemp := avgTemp + temperature[i] / (n as real);
      }
      assert temperature[..n] == temperature[..];
    }

    /** Fan control: scan the probes, stopping at the first one whose truncated
        deviation exceeds the high threshold; only if every probe was within
        the low threshold is the fan turned off. */
    method FanControl()
      modifies this`commands
      ensures commands == old(commands).(fan := FanDecision(temperature[..], avgTemp, old(commands).fan))
    {
      ghost var temps := temperature[..];
      var n := temperature.Length;
      var allProbesReasonableDiff := true;
      var i := 0;
      while i < n
        invariant 0 <= i <= n
        invariant commands == old(commands)
        invariant forall j :: 0 <= j < i ==> !ExceedsMax(Deviation(temps[j], avgTemp))
        invariant allProbesReasonableDiff <==>
          forall j :: 0 <= j < i ==> !ExceedsReasonable(Deviation(temps[j], avgTemp))
      {
        var tempDiff := Trunc(temperature[i] - avgTemp);
        if Abs(tempDiff) as real > MAX_ALLOWABLE_TEMP_DIFF {
          assert ExceedsMax(Deviation(temps[i], avgTemp));
          allProbesReasonableDiff := false;
          commands := commands.(fan := FanOn);
          break;
        } else if Abs(tempDiff) as real > REASONABLE_TEMP_DIFF {
          allProbesReasonableDiff := false;
        }
        i := i + 1;
      }
      if allProbesReasonableDiff {
        commands := commands.(fan := FanOff);
      }
    }

    /** Compressor control, on the counter already bumped for this cycle. */
    method CompressorControl()
      modifies this`commands, this`numLoopsSinceCompressorOff
      ensures var d := CompressorDecision(avgTemp, setTemp, old(commands).compressor,
                                          old(numLoopsSinceCompressorOff), loopFrequency);
        commands == old(commands).(compressor := d.0) && numLoopsSinceCompressorOff == d.1
    {
      if avgTemp > setTemp {
        if numLoopsSinceCompressorOff >= MIN_OFF_SECONDS * loopFrequency {
          commands := commands.(compressor := CompressorOn);
        }
      } else if avgTemp < setTemp {
        commands := commands.(compressor := CompressorOff);
        numLoopsSinceCompressorOff := 0;
      }
    }

    method ActuateFridgeState() returns (next: int)
      modifies this`sentCommands
      ensures next == CTRL_WAIT_FOR_TIMER
      ensures Snapshot() == ActuateEffect(old(Snapshot()))
    {
      sentCommands := sentCommands + [commands];
      next := CTRL_WAIT_FOR_TIMER;
    }

    method WaitForTimerState() returns (next: int)
      modifies this`periodHasPassed
      ensures next == (if old(periodHasPassed) then CTRL_COLLECT_DATA else CTRL_WAIT_FOR_TIMER)
      ensures Snapshot() == WaitEffect(old(Snapshot()))
    {
      if periodHasPassed {
        periodHasPassed := false;
        return CTRL_COLLECT_DATA;
      }
      return CTRL_WAIT_FOR_TIMER;
    }

    method FailedState() returns (next: int)
      ensures next == CTRL_FAILED
    {
      return CTRL_FAILED;
    }

    /** HAL_TIM_PeriodElapsedCallback: the timer interrupt sets the flag. */
    method PeriodElapsedCallback()
      modifies this`periodHasPassed
      ensures Snapshot() == Tick(old(Snapshot()))
    {
      periodHasPassed := true;
    }
  }

  /** Adding one reading's share to a running average. */
  lemma DivideSum(a: real, b: real, n: real)
    requires n != 0.0
    ensures a / n + b / n == (a + b) / n
  {
  }
}
