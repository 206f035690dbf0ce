# Refrigeration control loop — Dafny model

This project models the control loop of the Retrofrigeration firmware,
`firmware_DavidBoard/Core/Src/Controller.c`. The loop is a cyclic state machine. Each
call of its entry point (`Controller_SaveTheAfricans`) advances exactly one step along
Collect → Log → DoMath → Actuate → Wait. A hardware timer interrupt sets a one-bit
period flag. The Wait state consumes that flag before the next cycle starts. Any state
value outside the enumeration leads to an absorbing Failed state.

The DoMath step does three things:
- it averages the probe readings;
- it switches the fan with a hysteresis band, comparing each probe's truncated deviation
  from the average with 1.0 (start) and 0.5 (stop);
- it switches the compressor around the user setpoint, with a 75-second minimum
  off-time counted in control-loop cycles.

The model has two modules:

- `ControlAlgorithm` (`control_algorithm.dfy`) holds the control algorithm as pure
  functions: `Trunc`, `Mean`, `FanDecision`, `CompressorDecision` and `ControlStep`.
  `Run` iterates `ControlStep` over many cycles. The module also holds the lemmas about
  hysteresis and the minimum off-time.
- `Controller` (`controller.dfy`) holds the state machine. The state codes are the C
  enumerator values 0..5, so the `default` branch of the dispatcher is reachable from
  any other value. `Step` gives the meaning of one call on a snapshot `Vars` of the
  controller's variables. `Exec` runs a sequence of timer ticks and calls. Class
  `Context` holds the file-scope statics as fields:
  - `currentState`
  - `periodHasPassed`
  - `commands` (ActuatorCommands)
  - `setTemp` (UserSettings.setTemp)
  - the probe array `temperature` (DataBuffer.temperature)
  - `avgTemp`
  - the function-static `numLoopsSinceCompressorOff`

  Each state function of the C file is a method of `Context`. Each method is proved
  against the matching effect function. `DoMathState` runs three methods in turn, one
  per block of the C function: `AverageProbes` (the running average loop),
  `FanControl` (the fan scan with its early `break`) and `CompressorControl`. Each is
  proved against `Mean`, `FanDecision` and `CompressorDecision` respectively, and their
  composition equals `ControlStep`.

The outbound writes are recorded as sequences so that they can be stated:
- `sentCommands` records every actuator write.
- `displayedTemps` records the average handed to the LCD text at every Log step.

Collaborator results are parameters of the call that collects them: the calibrated
probe readings and the user setpoint.

`NUM_TEMP_PROBES` is the length of the probe array. `CTRL_LOOP_FREQUENCY` is the
constant `loopFrequency` of the controller. Both are at least 1. Their values live in
headers that are not part of this model.

Where the code's own comments and its statements disagree, the model follows the
statement:

- **Truncated deviation.** The comments on `MAX_ALLOWABLE_TEMP_DIFF` and
  `REASONABLE_TEMP_DIFF` (Controller.c lines 10-11) describe thresholds on how far a
  probe is from the average. The code stores `probe - avg` in an `int` (line 155), which
  truncates it toward zero before the comparisons at lines 157 and 163. The model
  truncates too (`Trunc`, `FanDecision`). `ExactFanDecision` is the rule as the comments
  describe it, on the exact deviation. `TruncatedThresholds` proves the effect of the
  truncation: a probe starts the fan only from a full 2 degrees off, and it blocks the
  stop only from a full degree off. `TruncatedFanWithinExact` proves that the truncated
  rule never starts a fan that the exact rule leaves off, and never keeps running a fan
  that the exact rule stops. `TruncationWidensBand` exhibits two probes that are each
  1.9 degrees off: they start a stopped fan under the exact rule but not under the code.

The minimum off-time meets its comment at line 178. The cycle whose average is below
the setpoint resets the counter to 0 (line 188) and writes OFF. The counter is
incremented at line 141, before the test against `75*CTRL_LOOP_FREQUENCY` at line 179,
so the earliest restart comes `MIN_OFF_CYCLES` cycles later. The turn-off cycle and the
next `MIN_OFF_CYCLES - 1` cycles therefore all write OFF: `MIN_OFF_CYCLES` writes in a
row, which is 75 seconds at `CTRL_LOOP_FREQUENCY` cycles per second
(`MinimumOffTime`, `MinimumOffTimeAtActuators`). `MinimumOffTimeIsTight` shows that the
bound is exact. Because the increment comes first, a counter of `MIN_OFF_CYCLES - 1` on
entry to a warm cycle already restarts the compressor in that same cycle
(`RestartThreshold`).

The LCD shows the average of the previous cycle, because Log runs before DoMath
(`OneFullCycle`).

## Model

| member | source | states |
|---|---|---|
| `ControlAlgorithm.Trunc` | firmware_DavidBoard/Core/Src/Controller.c:155 | storing a float in an `int` truncates toward zero: the result is within one unit of the value, on the zero side |
| `ControlAlgorithm.Mean` | firmware_DavidBoard/Core/Src/Controller.c:143-147 | the average of the readings: it times the number of probes is their sum, and one probe averages to its own reading |
| `ControlAlgorithm.FanDecision` | firmware_DavidBoard/Core/Src/Controller.c:151-172 | ON if some probe's truncated deviation exceeds 1.0; otherwise OFF if no probe's truncated deviation exceeds 0.5; otherwise the previous command (both directions stated) |
| `ControlAlgorithm.ExactFanDecision` | firmware_DavidBoard/Core/Src/Controller.c:10-11 | the hysteresis rule the threshold comments describe, on the exact deviation: ON if some probe is more than 1.0 off, otherwise OFF if none is more than 0.5 off, otherwise unchanged |
| `ControlAlgorithm.TruncatedFanWithinExact` | firmware_DavidBoard/Core/Src/Controller.c:153-172 | the truncated rule starts a stopped fan only if the exact rule does, and stops a running fan whenever the exact rule does |
| `ControlAlgorithm.CompressorDecision` | firmware_DavidBoard/Core/Src/Controller.c:176-189 | below the setpoint: OFF and counter 0; at the setpoint: unchanged; above: ON once the counter reaches 75·frequency; the counter is kept unless reset; ON only if it was ON or the restart condition holds |
| `ControlAlgorithm.ControlStep` | firmware_DavidBoard/Core/Src/Controller.c:138-192 | one DoMath run: the average is `Mean`, the fan follows `FanDecision`, the counter is reset below the setpoint and otherwise incremented, and the compressor switches ON only on a warm cycle that has reached the minimum and OFF only on a cold cycle |
| `ControlAlgorithm.Run` | firmware_DavidBoard/Core/Src/Controller.c:138-192 | DoMath repeated once per cycle over a sequence of readings and setpoints; the counter grows by at most one per cycle |
| `ControlAlgorithm.MeanOfConstant` | firmware_DavidBoard/Core/Src/Controller.c:143-147 | identical readings (and so a single probe) average to that reading |
| `ControlAlgorithm.MeanWithinBounds` | firmware_DavidBoard/Core/Src/Controller.c:143-147 | the average lies between any lower and upper bound of all the readings |
| `ControlAlgorithm.TruncatedThresholds` | firmware_DavidBoard/Core/Src/Controller.c:155-166 | the truncated deviation exceeds 1.0 exactly when the real deviation is at least 2, and exceeds 0.5 exactly when it is at least 1 |
| `ControlAlgorithm.FanOnWhenProbeFar` | firmware_DavidBoard/Core/Src/Controller.c:153-162 | one probe at least 2 degrees from the average forces the fan ON, whatever the other probes read |
| `ControlAlgorithm.FanOffWhenAllClose` | firmware_DavidBoard/Core/Src/Controller.c:151-172 | all probes less than 1 degree from the average turn the fan OFF |
| `ControlAlgorithm.FanHeldInBand` | firmware_DavidBoard/Core/Src/Controller.c:151-172 | with no probe 2 degrees off and some probe at least 1 degree off, the fan keeps its previous command |
| `ControlAlgorithm.FanOnCharacterised` | firmware_DavidBoard/Core/Src/Controller.c:151-172 | the fan is ON after the step exactly when some probe is 2 degrees off, or the fan was ON and some probe is at least 1 degree off |
| `ControlAlgorithm.TruncationWidensBand` | firmware_DavidBoard/Core/Src/Controller.c:153-167 | two probes 1.9 degrees either side of their average (more than MAX_ALLOWABLE_TEMP_DIFF) do not start a stopped fan, though the exact rule starts it |
| `ControlAlgorithm.CompressorTransitions` | firmware_DavidBoard/Core/Src/Controller.c:176-189 | OFF→ON only when the average is above the setpoint and the incremented counter has reached 75·frequency; ON→OFF only when the average is below the setpoint |
| `ControlAlgorithm.CompressorAndCounter` | firmware_DavidBoard/Core/Src/Controller.c:140-189 | below the setpoint: compressor OFF and counter 0 in the same cycle; at the setpoint: compressor unchanged, counter incremented; above: counter incremented, compressor ON once the counter reaches the minimum, otherwise unchanged |
| `ControlAlgorithm.UniformProbesAtSetpoint` | firmware_DavidBoard/Core/Src/Controller.c:138-192 | probes all at the setpoint: the average is the setpoint, the fan is OFF, the compressor is unchanged and the counter is only incremented |
| `ControlAlgorithm.SpreadProbesStartFan` | firmware_DavidBoard/Core/Src/Controller.c:143-162 | readings 2.0 and 6.0 with setpoint 4.0: the average is 4.0 and the fan is ON, with the compressor unchanged |
| `ControlAlgorithm.StaysOffBelowMinimum` | firmware_DavidBoard/Core/Src/Controller.c:176-189 | an OFF compressor stays OFF, whatever the temperatures, over any run of cycles in which the counter cannot reach the minimum; the counter grows by at most one per cycle |
| `ControlAlgorithm.MinimumOffTime` | firmware_DavidBoard/Core/Src/Controller.c:140-189 | once a cycle turns the compressor OFF, it stays OFF for at least 75·frequency − 1 further cycles, whatever their readings and setpoints |
| `ControlAlgorithm.CountsUpWhileWarm` | firmware_DavidBoard/Core/Src/Controller.c:140-183 | while every cycle is above its setpoint, the counter rises by exactly one per cycle and an ON compressor stays ON |
| `ControlAlgorithm.MinimumOffTimeIsTight` | firmware_DavidBoard/Core/Src/Controller.c:176-183 | after the turn-off cycle, 75·frequency warm cycles end with the compressor ON, so the off-time bound is exact |
| `ControlAlgorithm.RestartThreshold` | firmware_DavidBoard/Core/Src/Controller.c:140-183 | with an OFF compressor and a warm average, a counter of minimum − 2 stays OFF and reaches minimum − 1; the next warm cycle turns it ON with the counter at the minimum |
| `Controller.NextState` | firmware_DavidBoard/Core/Src/Controller.c:78-113 | each cycle state other than Wait moves to its successor in Collect→Log→DoMath→Actuate→Wait; Wait moves to Collect exactly when the flag is set; every other value moves to Failed |
| `Controller.Step` | firmware_DavidBoard/Core/Src/Controller.c:78-113 | one call of the entry point: the new state is `NextState`, an unrecognised state goes to Failed with nothing else changed, the probe count is kept, and the actuator and display records only grow |
| `Controller.Tick` | firmware_DavidBoard/Core/Src/Controller.c:226-229 | the timer interrupt sets the period flag and changes nothing else |
| `Controller.Exec` | firmware_DavidBoard/Core/Src/Controller.c:78-113 | a sequence of calls and ticks, in order: the probe count is kept and the actuator and display records only grow |
| `Controller.Initial` | firmware_DavidBoard/Core/Src/Controller.c:61-76 | the variables after zero-initialisation of the statics (lines 32-41) and `Controller_Init`: state Collect, flag clear, counter and averages 0, zero readings, nothing sent or displayed |
| `Controller.Sends` | firmware_DavidBoard/Core/Src/Controller.c:176-199 | the commands written by successive cycles of the pattern `CycleEvents` fixes (four calls, a tick, the consuming call), one per cycle |
| `Controller.SendsStayOff` | firmware_DavidBoard/Core/Src/Controller.c:176-189 | while the counter cannot reach the minimum, every write of successive cycles keeps an OFF compressor OFF |
| `Controller.CyclesFollowRun` | firmware_DavidBoard/Core/Src/Controller.c:78-211 | cycles that each run four calls from Collect, one tick after Actuate and the call that consumes it end in Collect with commands and counter as `Run` computes them, and append exactly the commands of each cycle to the actuator writes |
| `Controller.MinimumOffTimeAtActuators` | firmware_DavidBoard/Core/Src/Controller.c:176-199 | over cycles of four calls, a tick after Actuate and the consuming call: after a cycle whose average is below its setpoint, that cycle's actuator write and those of the next 75·frequency − 1 cycles all command the compressor OFF, whatever those cycles read |
| `Controller.FailedOnUnrecognised` | firmware_DavidBoard/Core/Src/Controller.c:103-109 | a call in Failed, or with any unrecognised state value, goes to Failed and changes nothing else |
| `Controller.FailedIsAbsorbing` | firmware_DavidBoard/Core/Src/Controller.c:213-216 | from Failed, any sequence of calls and ticks stays in Failed, commands, counters and outputs untouched; only the interrupt's flag can change |
| `Controller.CycleIsClosed` | firmware_DavidBoard/Core/Src/Controller.c:81-112 | from a state of the cycle, any sequence of calls and ticks stays in the cycle, never in Failed |
| `Controller.InitialNeverFails` | firmware_DavidBoard/Core/Src/Controller.c:61-76 | after initialisation (state Collect), the controller never reaches Failed |
| `Controller.WaitSpins` | firmware_DavidBoard/Core/Src/Controller.c:201-211 | in Wait without a pending flag, any number of calls change nothing |
| `Controller.TicksCoalesce` | firmware_DavidBoard/Core/Src/Controller.c:226-229 | two timer ticks before the Wait call give the same single advance to Collect, flag cleared, as one tick |
| `Controller.OneFullCycle` | firmware_DavidBoard/Core/Src/Controller.c:115-211 | four calls from Collect, a tick and one more call return to Collect: new readings and setpoint taken, previous average displayed once, control algorithm run once, its commands sent once, flag cleared |
| `Controller.FirstHalfCycle` | firmware_DavidBoard/Core/Src/Controller.c:115-136 | Collect then Log: the delivered readings and setpoint are stored, the previous average is displayed, next state DoMath |
| `Controller.SecondHalfCycle` | firmware_DavidBoard/Core/Src/Controller.c:138-199 | DoMath then Actuate: the control algorithm runs on the buffered readings and its commands are written once, next state Wait |
| `Controller.ClosingTick` | firmware_DavidBoard/Core/Src/Controller.c:201-211 | a tick in Wait, then a call: the flag is consumed and the state returns to Collect, nothing else changes |
| `Controller.WhereOutputsChange` | firmware_DavidBoard/Core/Src/Controller.c:115-199 | commands and counter change only in DoMath; actuator writes happen only in Actuate; display writes only in Log; readings and setpoint change only in Collect |
| `Controller.Context.Init` | firmware_DavidBoard/Core/Src/Controller.c:61-76 | after zero-initialisation and Controller_Init: state Collect, flag clear, counter 0, average 0, nothing sent |
| `Controller.Context.Advance` | firmware_DavidBoard/Core/Src/Controller.c:78-113 | the dispatcher changes the controller's variables exactly as `Step` says |
| `Controller.Context.CollectDataState` | firmware_DavidBoard/Core/Src/Controller.c:115-123 | the delivered setpoint and readings are stored, nothing else changes, next state Log |
| `Controller.Context.LogDataState` | firmware_DavidBoard/Core/Src/Controller.c:125-136 | the current average is displayed, nothing else changes, next state DoMath |
| `Controller.Context.DoMathState` | firmware_DavidBoard/Core/Src/Controller.c:138-192 | the counter increment, `AverageProbes`, `FanControl` and `CompressorControl` in turn compute exactly `ControlStep` on the buffered readings; the probe buffer and setpoint are not written; next state Actuate |
| `Controller.Context.AverageProbes` | firmware_DavidBoard/Core/Src/Controller.c:143-147 | the running-average loop leaves `avgTemp` equal to `Mean` of the probe array |
| `Controller.Context.FanControl` | firmware_DavidBoard/Core/Src/Controller.c:151-172 | the fan scan with its early break sets the fan to `FanDecision` and leaves the compressor command unchanged |
| `Controller.Context.CompressorControl` | firmware_DavidBoard/Core/Src/Controller.c:176-189 | the compressor command and the counter become what `CompressorDecision` gives; the fan command is unchanged |
| `Controller.Context.ActuateFridgeState` | firmware_DavidBoard/Core/Src/Controller.c:194-199 | the current commands are sent, nothing else changes, next state Wait |
| `Controller.Context.WaitForTimerState` | firmware_DavidBoard/Core/Src/Controller.c:201-211 | a set flag is cleared and the next state is Collect; otherwise nothing changes and the next state is Wait |
| `Controller.Context.FailedState` | firmware_DavidBoard/Core/Src/Controller.c:213-216 | the next state is Failed |
| `Controller.Context.PeriodElapsedCallback` | firmware_DavidBoard/Core/Src/Controller.c:226-229 | the period flag is set and nothing else changes |

## Left out

- HAL and peripheral I/O are not modelled: `HAL_Delay`, the timer start (`HAL_TIM_Base_Start_IT`),
  `I2CManager_Init` and `UserMenu_Init`. Their bodies are not part of this model.
- `UserMenu_GetUserSettings` and `Temperature_ADCtoCelsius` are modelled only by their results. These
  are the setpoint and readings passed to `Advance`.
- `I2CManager_SendActuatorCommands` is modelled only as the record `sentCommands`.
- `I2CManager_SendToLCD` is modelled only as the average recorded in `displayedTemps`. The exchange
  launched by `I2CManager_LaunchExchange` is not recorded.
- `I2CManager_GetPushButtonStates`, `PushButtonStates` and `UserMenu_DetermineLCDString` are left out.
  They and the 16-character LCD string belong to the user-interface collaborator, which is not part of
  this model.
- The interrupt context is not modelled as concurrency. The timer callback is an ordinary method, and
  a tick is an event between calls. Atomicity of the flag is not modelled.
- Ticks during the settling delay of `Controller_Init` are not modelled: the constructor ends with the
  flag clear. Such a tick is a `PeriodElapsedCallback` call right after construction.
- IEEE-754 single-precision rounding is not modelled. Temperatures, the running average and all
  comparisons are exact reals. In particular, the sum of `t[i]/N` equals `Sum(t)/N` exactly.
- `Controller.Context.DoMathState`: the counter is a `nat`, so the model does not capture the
  `uint32_t` wrap-around after 2^32 cycles.
- The model does not fix the numeric values of `FAN_ON`/`COMPRESSOR_ON` or the zero-initialised
  `ActuatorCommands`. Their encodings live in headers that are not part of this model, so the initial
  commands are a parameter of `Context.Init`.
- No values are fixed for `NUM_TEMP_PROBES` and `CTRL_LOOP_FREQUENCY`. They are only assumed to be at
  least 1.
- `Controller.CyclesFollowRun`, `Controller.MinimumOffTimeAtActuators`: these cover the one event pattern per
  cycle that `CycleEvents` fixes. It has four calls from Collect, one tick after Actuate, then the call
  that consumes it. Runs where the tick arrives before Wait, or where Wait spins on further calls, are
  not covered by these two lemmas. `WaitSpins` and `TicksCoalesce` state those cases one cycle at a time.
