/** The control algorithm of the refrigeration loop (the body of DoMath_State):
    averaging the probe readings, fan hysteresis on the per-probe deviation,
    and compressor control with a minimum off-time. Everything here is a pure
    function of the readings, the setpoint, the previous actuator commands and
    the "loops since compressor off" counter. Temperatures are reals; the
    firmware's single-precision rounding is not modelled. */
module ControlAlgorithm {

  datatype Fan = FanOff | FanOn
  datatype Compressor = CompressorOff | CompressorOn
  datatype ActuatorCommands = ActuatorCommands(fan: Fan, compressor: Compressor)

  /** Start the fan when some probe is this far from the average. */
  const MAX_ALLOWABLE_TEMP_DIFF: real := 1.0
  /** Stop the fan only when no probe is this far from the average. */
  const REASONABLE_TEMP_DIFF: real := 0.5
  /** The compressor must stay off this many seconds before it is restarted. */
  const MIN_OFF_SECONDS: nat := 75

  /** Minimum off-time in control-loop cycles, at loopFrequency cycles per second. */
  function MinOffCycles(loopFrequency: nat): nat
  {
    MIN_OFF_SECONDS * loopFrequency
  }

  /** Conversion of a fractional value to a C `int`: truncation toward zero. */
  function Trunc(x: real): (n: int)
    ensures 0.0 <= x ==> n as real <= x < n as real + 1.0
    ensures x < 0.0 ==> n as real - 1.0 < x <= n as real
  {
    if 0.0 <= x then x.Floor else -((-x).Floor)
  }

  /** The ABS macro on an `int`. */
  function Abs(n: int): (r: nat)
    ensures r == n || r == -n
  {
    if n < 0 then -n else n
  }

  function AbsReal(x: real): (r: real)
    ensures 0.0 <= r && (r == x || r == -x)
  {
    if x < 0.0 then -x else x
  }

  /** Sum of the readings, element by element from the first. */
  function Sum(s: seq<real>): real
  {
    if |s| == 0 then 0.0 else Sum(s[..|s| - 1]) + s[|s| - 1]
  }

  /** Arithmetic mean of the probe readings. */
  function Mean(s: seq<real>): (r: real)
    requires |s| >= 1
    ensures r * (|s| as real) == Sum(s)
    ensures |s| == 1 ==> r == s[0]
  {
    Sum(s) / (|s| as real)
  }

  /** The deviation the firmware compares: probe minus average, stored in an `int`. */
  function Deviation(t: real, avg: real): int
  {
    Trunc(t - avg)
  }

  predicate ExceedsMax(d: int)
  {
    Abs(d) as real > MAX_ALLOWABLE_TEMP_DIFF
  }

  predicate ExceedsReasonable(d: int)
  {
    Abs(d) as real > REASONABLE_TEMP_DIFF
  }

  /** Some probe's (truncated) deviation exceeds the high threshold. */
  predicate AnyExceedsMax(temps: seq<real>, avg: real)
  {
    exists i :: 0 <= i < |temps| && ExceedsMax(Deviation(temps[i], avg))
  }

  /** Every probe's (truncated) deviation is within the low threshold. */
  predicate AllReasonable(temps: seq<real>, avg: real)
  {
    forall i :: 0 <= i < |temps| ==> !ExceedsReasonable(Deviation(temps[i], avg))
  }

  /** Fan hysteresis: ON if any probe is too far off, OFF once all probes are
      close, otherwise the fan keeps its command. */
  function FanDecision(temps: seq<real>, avg: real, fan: Fan): (r: Fan)
    ensures r == FanOn <==> AnyExceedsMax(temps, avg) || (fan == FanOn && !AllReasonable(temps, avg))
    ensures r == FanOff <==> !AnyExceedsMax(temps, avg) && (AllReasonable(temps, avg) || fan == FanOff)
  {
    if AnyExceedsMax(temps, avg) then FanOn
    else if AllReasonable(temps, avg) then FanOff
    else fan
  }

  /** Compressor control, given the counter AFTER this cycle's increment.
      Returns the new compressor command and the new counter. */
  function CompressorDecision(avg: real, setTemp: real, compressor: Compressor,
                              counter: nat, loopFrequency: nat): (r: (Compressor, nat))
    ensures avg < setTemp ==> r == (CompressorOff, 0)
    ensures avg >= setTemp ==> r.1 == counter
    ensures avg == setTemp ==> r.0 == compressor
    ensures avg > setTemp && counter >= MinOffCycles(loopFrequency) ==> r.0 == CompressorOn
    ensures r.0 == CompressorOn ==>
      compressor == CompressorOn || (avg > setTemp && counter >= MinOffCycles(loopFrequency))
  {
    if avg > setTemp then
      (if counter >= MinOffCycles(loopFrequency) then CompressorOn else compressor, counter)
    else if avg < setTemp then
      (CompressorOff, 0)
    else
      (compressor, counter)
  }

  /** What one run of the control algorithm produces. */
  datatype ControlOutput = ControlOutput(avgTemp: real, commands: ActuatorCommands, counter: nat)

  /** One run of the control algorithm: bump the counter, average the probes,
      decide the fan, then decide the compressor. */
  function ControlStep(temps: seq<real>, setTemp: real, prev: ActuatorCommands,
                       counter: nat, loopFrequency: nat): (r: ControlOutput)
    requires |temps| >= 1
    ensures r.avgTemp == Mean(temps)
    ensures r.commands.fan == FanDecision(temps, r.avgTemp, prev.fan)
    ensures r.counter == (if r.avgTemp < setTemp then 0 else counter + 1)
    ensures r.commands.compressor == CompressorOn ==>
      prev.compressor == CompressorOn || (r.avgTemp > setTemp && r.counter >= MinOffCycles(loopFrequency))
    ensures r.commands.compressor == CompressorOff ==>
      prev.compressor == CompressorOff || r.avgTemp < setTemp
  {
    var avg := Mean(temps);
    var fan := FanDecision(temps, avg, prev.fan);
    var (compressor, counter') :=
      CompressorDecision(avg, setTemp, prev.compressor, counter + 1, loopFrequency);
    ControlOutput(avg, ActuatorCommands(fan, compressor), counter')
  }

  // ---------------------------------------------------------------------------
  // The average

  lemma {:induction false} SumOfConstant(s: seq<real>, c: real)
    requires forall i :: 0 <= i < |s| ==> s[i] == c
    ensures Sum(s) == (|s| as real) * c
  {
    if |s| > 0 {
      SumOfConstant(s[..|s| - 1], c);
    }
  }

  /** Identical readings average to that reading (in particular, one probe
      degrades to plain threshold control on its own reading). */
  lemma MeanOfConstant(s: seq<real>, c: real)
    requires |s| >= 1
    requires forall i :: 0 <= i < |s| ==> s[i] == c
    ensures Mean(s) == c
  {
    SumOfConstant(s, c);
  }

  lemma {:induction false} SumBounds(s: seq<real>, lo: real, hi: real)
    requires forall i :: 0 <= i < |s| ==> lo <= s[i] <= hi
    ensures (|s| as real) * lo <= Sum(s) <= (|s| as real) * hi
  {
    if |s| > 0 {
      SumBounds(s[..|s| - 1], lo, hi);
    }
  }

  /** The average lies between the coldest and the warmest probe. */
  lemma MeanWithinBounds(s: seq<real>, lo: real, hi: real)
    requires |s| >= 1
    requires forall i :: 0 <= i < |s| ==> lo <= s[i] <= hi
    ensures lo <= Mean(s) <= hi
  {
    SumBounds(s, lo, hi);
    var n := |s| as real;
    assert Mean(s) * n == Sum(s);
  }

  // ---------------------------------------------------------------------------
  // Fan hysteresis, in terms of the untruncated deviation

  /** Because the deviation is truncated to an integer before the comparison,
      "more than 1.0 away" takes effect only from a full 2 degrees, and "more
      than 0.5 away" from a full degree. */
  lemma TruncatedThresholds(d: real)
    ensures ExceedsMax(Trunc(d)) <==> AbsReal(d) >= 2.0
    ensures ExceedsReasonable(Trunc(d)) <==> AbsReal(d) >= 1.0
  {
    var n := Trunc(d);
    if 0.0 <= d {
      assert Abs(n) == n;
    } else {
      assert Abs(n) == -n;
    }
  }

  /** A probe at least two degrees from the average forces the fan ON,
      whatever the other probes read. */
  lemma FanOnWhenProbeFar(temps: seq<real>, avg: real, fan: Fan, k: nat)
    requires k < |temps| && AbsReal(temps[k] - avg) >= 2.0
    ensures FanDecision(temps, avg, fan) == FanOn
  {
    TruncatedThresholds(temps[k] - avg);
    assert ExceedsMax(Deviation(temps[k], avg));
  }

  /** All probes less than one degree from the average turn the fan OFF. */
  lemma FanOffWhenAllClose(temps: seq<real>, avg: real, fan: Fan)
    requires forall i :: 0 <= i < |temps| ==> AbsReal(temps[i] - avg) < 1.0
    ensures FanDecision(temps, avg, fan) == FanOff
  {
    forall i | 0 <= i < |temps|
      ensures !ExceedsMax(Deviation(temps[i], avg)) && !ExceedsReasonable(Deviation(temps[i], avg))
    {
      TruncatedThresholds(temps[i] - avg);
    }
  }

  /** Inside the hysteresis band (no probe two degrees off, some probe at least
      one degree off) the fan keeps its previous command. */
  lemma FanHeldInBand(temps: seq<real>, avg: real, fan: Fan, k: nat)
    requires forall i :: 0 <= i < |temps| ==> AbsReal(temps[i] - avg) < 2.0
    requires k < |temps| && AbsReal(temps[k] - avg) >= 1.0
    ensures FanDecision(temps, avg, fan) == fan
  {
    forall i | 0 <= i < |temps|
      ensures !ExceedsMax(Deviation(temps[i], avg))
    {
      TruncatedThresholds(temps[i] - avg);
    }
    TruncatedThresholds(temps[k] - avg);
    assert ExceedsReasonable(Deviation(temps[k], avg));
  }

  /** The fan command is FanOn exactly when some probe is two degrees off, or
      the fan was already ON and some probe is at least one degree off. */
  lemma FanOnCharacterised(temps: seq<real>, avg: real, fan: Fan)
    ensures FanDecision(temps, avg, fan) == FanOn <==>
      (exists i :: 0 <= i < |temps| && AbsReal(temps[i] - avg) >= 2.0) ||
      (fan == FanOn && exists i :: 0 <= i < |temps| && AbsReal(temps[i] - avg) >= 1.0)
  {
    forall i | 0 <= i < |temps|
      ensures ExceedsMax(Deviation(temps[i], avg)) <==> AbsReal(temps[i] - avg) >= 2.0
      ensures ExceedsReasonable(Deviation(temps[i], avg)) <==> AbsReal(temps[i] - avg) >= 1.0
    {
      TruncatedThresholds(temps[i] - avg);
    }
  }

  /** A reference fan decision that compares the exact deviation with the
      two thresholds, as their comments describe them. */
  function ExactFanDecision(temps: seq<real>, avg: real, fan: Fan): (r: Fan)
    ensures r == FanOn <==>
      (exists i :: 0 <= i < |temps| && AbsReal(temps[i] - avg) > MAX_ALLOWABLE_TEMP_DIFF) ||
      (fan == FanOn && exists i :: 0 <= i < |temps| && AbsReal(temps[i] - avg) > REASONABLE_TEMP_DIFF)
  {
    if exists i :: 0 <= i < |temps| && AbsReal(temps[i] - avg) > MAX_ALLOWABLE_TEMP_DIFF then FanOn
    else if forall i :: 0 <= i < |temps| ==> AbsReal(temps[i] - avg) <= REASONABLE_TEMP_DIFF then FanOff
    else fan
  }

  /** The firmware's truncated comparison is more reluctant than the exact
      one in both directions: it starts a stopped fan only where the exact
      decision starts it, and it stops a running fan wherever the exact
      decision stops it. */
  lemma TruncatedFanWithinExact(temps: seq<real>, avg: real)
    ensures FanDecision(temps, avg, FanOff) == FanOn ==> ExactFanDecision(temps, avg, FanOff) == FanOn
    ensures ExactFanDecision(temps, avg, FanOn) == FanOff ==> FanDecision(temps, avg, FanOn) == FanOff
  {
    forall i | 0 <= i < |temps|
      ensures ExceedsMax(Deviation(temps[i], avg)) <==> AbsReal(temps[i] - avg) >= 2.0
      ensures ExceedsReasonable(Deviation(temps[i], avg)) <==> AbsReal(temps[i] - avg) >= 1.0
    {
      TruncatedThresholds(temps[i] - avg);
    }
  }

  /** Two probes 1.9 degrees either side of their average do not start a
      stopped fan, although both are further than MAX_ALLOWABLE_TEMP_DIFF
      from it: the effect of truncating the deviation. */
  lemma TruncationWidensBand()
    ensures Mean([0.0, 3.8]) == 1.9
    ensures AbsReal(0.0 - 1.9) > MAX_ALLOWABLE_TEMP_DIFF && AbsReal(3.8 - 1.9) > MAX_ALLOWABLE_TEMP_DIFF
    ensures FanDecision([0.0, 3.8], 1.9, FanOff) == FanOff
    ensures ExactFanDecision([0.0, 3.8], 1.9, FanOff) == FanOn
  {
    var s := [0.0, 3.8];
    assert s[..1] == [0.0];
    assert Sum(s) == 3.8;
    assert Deviation(s[0], 1.9) == -1;
    assert Deviation(s[1], 1.9) == 1;
    assert !AnyExceedsMax(s, 1.9);
    assert !AllReasonable(s, 1.9) by {
      assert ExceedsReasonable(Deviation(s[1], 1.9));
    }
    assert AbsReal(s[1] - 1.9) > MAX_ALLOWABLE_TEMP_DIFF;
  }

  // ---------------------------------------------------------------------------
  // One cycle of the control algorithm

  /** The compressor is switched ON only when the average is above the setpoint
      and the counter has reached the minimum off-time; it is switched OFF only
      when the average is below the setpoint. */
  lemma CompressorTransitions(temps: seq<real>, setTemp: real, prev: ActuatorCommands,
                              counter: nat, loopFrequency: nat)
    requires |temps| >= 1
    ensures var o := ControlStep(temps, setTemp, prev, counter, loopFrequency);
      (prev.compressor == CompressorOff && o.commands.compressor == CompressorOn ==>
         Mean(temps) > setTemp && counter + 1 >= MinOffCycles(loopFrequency)) &&
      (prev.compressor == CompressorOn && o.commands.compressor == CompressorOff ==>
         Mean(temps) < setTemp)
  {
  }

  /** Below the setpoint: compressor OFF and counter reset in the same cycle.
      At the setpoint: compressor unchanged and counter only incremented.
      Above the setpoint: counter incremented, compressor ON once the
      incremented counter reaches the minimum off-time, otherwise unchanged. */
  lemma CompressorAndCounter(temps: seq<real>, setTemp: real, prev: ActuatorCommands,
                             counter: nat, loopFrequency: nat)
    requires |temps| >= 1
    ensures var o := ControlStep(temps, setTemp, prev, counter, loopFrequency);
      (Mean(temps) < setTemp ==> o.commands.compressor == CompressorOff && o.counter == 0) &&
      (Mean(temps) == setTemp ==> o.commands.compressor == prev.compressor && o.counter == counter + 1) &&
      (Mean(temps) > setTemp ==>
         o.counter == counter + 1 &&
         o.commands.compressor ==
           (if counter + 1 >= MinOffCycles(loopFrequency) then CompressorOn else prev.compressor))
  {
  }

  /** Probes all equal to the setpoint: the average is that value, the fan is
      commanded OFF, the compressor keeps its command and the counter is only
      incremented. */
  lemma UniformProbesAtSetpoint(temps: seq<real>, setTemp: real, prev: ActuatorCommands,
                                counter: nat, loopFrequency: nat)
    requires |temps| >= 1
    requires forall i :: 0 <= i < |temps| ==> temps[i] == setTemp
    ensures var o := ControlStep(temps, setTemp, prev, counter, loopFrequency);
      o.avgTemp == setTemp && o.commands == ActuatorCommands(FanOff, prev.compressor) &&
      o.counter == counter + 1
  {
    MeanOfConstant(temps, setTemp);
    FanOffWhenAllClose(temps, setTemp, prev.fan);
  }

  /** Readings 2.0 and 6.0 around a setpoint of 4.0: average 4.0, both probes
      two degrees off, so the fan is commanded ON and the compressor unchanged. */
  lemma SpreadProbesStartFan(prev: ActuatorCommands, counter: nat, loopFrequency: nat)
    ensures var o := ControlStep([2.0, 6.0], 4.0, prev, counter, loopFrequency);
      o.avgTemp == 4.0 && o.commands == ActuatorCommands(FanOn, prev.compressor)
  {
    var s := [2.0, 6.0];
    assert s[..1] == [2.0];
    assert Sum(s) == 8.0;
    FanOnWhenProbeFar(s, 4.0, prev.fan, 0);
  }

  // ---------------------------------------------------------------------------
  // Several cycles: the minimum off-time

  /** The inputs of one cycle: the probe readings and the setpoint. */
  datatype CycleInput = CycleInput(temps: seq<real>, setTemp: real)

  /** The state the control algorithm carries from one cycle to the next. */
  datatype ControlVars = ControlVars(commands: ActuatorCommands, counter: nat)

  predicate WellFormed(inputs: seq<CycleInput>)
  {
    forall k :: 0 <= k < |inputs| ==> |inputs[k].temps| >= 1
  }

  function After(v: ControlVars, input: CycleInput, loopFrequency: nat): ControlVars
    requires |input.temps| >= 1
  {
    var o := ControlStep(input.temps, input.setTemp, v.commands, v.counter, loopFrequency);
    ControlVars(o.commands, o.counter)
  }

  /** The control state after running the algorithm once per input, in order. */
  function Run(inputs: seq<CycleInput>, v: ControlVars, loopFrequency: nat): (r: ControlVars)
    requires WellFormed(inputs)
    ensures r.counter <= v.counter + |inputs|
    decreases |inputs|
  {
    if |inputs| == 0 then v
    else Run(inputs[1..], After(v, inputs[0], loopFrequency), loopFrequency)
  }

  /** While the compressor is OFF and the counter cannot yet reach the minimum
      off-time, it stays OFF whatever the temperatures, and the counter grows
      by at most one per cycle. */
  lemma {:induction false} StaysOffBelowMinimum(inputs: seq<CycleInput>, v: ControlVars, loopFrequency: nat)
    requires WellFormed(inputs)
    requires v.commands.compressor == CompressorOff
    requires v.counter + |inputs| < MinOffCycles(loopFrequency)
    ensures Run(inputs, v, loopFrequency).commands.compressor == CompressorOff
    ensures Run(inputs, v, loopFrequency).counter <= v.counter + |inputs|
  {
    if |inputs| > 0 {
      var w := After(v, inputs[0], loopFrequency);
      StaysOffBelowMinimum(inputs[1..], w, loopFrequency);
    }
  }

  /** Minimum off-time: once a cycle has turned the compressor OFF (average
      below setpoint), it stays OFF for at least MinOffCycles - 1 further
      cycles, whatever the readings and setpoints of those cycles. */
  lemma MinimumOffTime(input: CycleInput, v: ControlVars, later: seq<CycleInput>, loopFrequency: nat)
    requires |input.temps| >= 1 && Mean(input.temps) < input.setTemp
    requires WellFormed(later) && |later| <= MinOffCycles(loopFrequency) - 1
    ensures After(v, input, loopFrequency).commands.compressor == CompressorOff
    ensures Run(later, After(v, input, loopFrequency), loopFrequency).commands.compressor == CompressorOff
  {
    StaysOffBelowMinimum(later, After(v, input, loopFrequency), loopFrequency);
  }

  /** While every cycle is above its setpoint the counter rises by exactly one
      per cycle, and an ON compressor stays ON. */
  lemma {:induction false} CountsUpWhileWarm(inputs: seq<CycleInput>, v: ControlVars, loopFrequency: nat)
    requires WellFormed(inputs)
    requires forall k :: 0 <= k < |inputs| ==> Mean(inputs[k].temps) > inputs[k].setTemp
    ensures Run(inputs, v, loopFrequency).counter == v.counter + |inputs|
    ensures v.commands.compressor == CompressorOn ==>
      Run(inputs, v, loopFrequency).commands.compressor == CompressorOn
  {
    if |inputs| > 0 {
      var w := After(v, inputs[0], loopFrequency);
      CountsUpWhileWarm(inputs[1..], w, loopFrequency);
    }
  }

  /** The minimum off-time is exact: after the compressor was turned OFF, a
      run of MinOffCycles cycles that are all above their setpoint ends with
      the compressor ON. */
  lemma MinimumOffTimeIsTight(input: CycleInput, v: ControlVars, later: seq<CycleInput>, loopFrequency: nat)
    requires |input.temps| >= 1 && Mean(input.temps) < input.setTemp
    requires loopFrequency >= 1
    requires WellFormed(later) && |later| == MinOffCycles(loopFrequency)
    requires forall k :: 0 <= k < |later| ==> Mean(later[k].temps) > later[k].setTemp
    ensures Run(later, After(v, input, loopFrequency), loopFrequency).commands.compressor == CompressorOn
  {
    var w := After(v, input, loopFrequency);
    var n := |later| - 1;
    var prefix, last := later[..n], later[n];
    assert later == prefix + [last];
    RunSplit(prefix, [last], w, loopFrequency);
    CountsUpWhileWarm(prefix, w, loopFrequency);
    var u := Run(prefix, w, loopFrequency);
    assert u.counter + 1 == MinOffCycles(loopFrequency);
    assert Run([last], u, loopFrequency) == After(u, last, loopFrequency);
  }

  lemma {:induction false} RunSplit(a: seq<CycleInput>, b: seq<CycleInput>, v: ControlVars, loopFrequency: nat)
    requires WellFormed(a) && WellFormed(b)
    ensures WellFormed(a + b)
    ensures Run(a + b, v, loopFrequency) == Run(b, Run(a, v, loopFrequency), loopFrequency)
  {
    assert forall k :: 0 <= k < |a + b| ==> (a + b)[k] == if k < |a| then a[k] else b[k - |a|];
    if |a| == 0 {
      assert a + b == b;
    } else {
      assert (a + b)[0] == a[0];
      assert (a + b)[1..] == a[1..] + b;
      RunSplit(a[1..], b, After(v, a[0], loopFrequency), loopFrequency);
    }
  }

  /** A warm cycle with the counter two short of the minimum leaves an OFF
      compressor OFF; because the counter is incremented before it is tested,
      one short of the minimum is enough to start it in the same cycle. */
  lemma RestartThreshold(temps: seq<real>, setTemp: real, fan: Fan, loopFrequency: nat)
    requires |temps| >= 1 && Mean(temps) > setTemp && loopFrequency >= 1
    ensures var prev := ActuatorCommands(fan, CompressorOff);
      var o1 := ControlStep(temps, setTemp, prev, MinOffCycles(loopFrequency) - 2, loopFrequency);
      var o2 := ControlStep(temps, setTemp, o1.commands, o1.counter, loopFrequency);
      o1.commands.compressor == CompressorOff && o1.counter == MinOffCycles(loopFrequency) - 1 &&
      o2.commands.compressor == CompressorOn && o2.counter == MinOffCycles(loopFrequency)
  {
  }
}
