# Fronius Ohmpilot: verified model of the register codec, client and controller

This project models the core of a Home Assistant integration for the Fronius
Ohmpilot, a resistive-heater power diverter reached over Modbus TCP, together
with the two standalone scripts that shipped with it:

- **Register codec** (`codec.dfy`, with Python's bit operations in
  `bits.dfy`). Holding registers are 16-bit words. Wider values are packed
  most significant word first: active power in two words, energy in four.
  The integration and the test script join words with `<<` and `|`. The
  controller joins them with `<<` and `+`. The controller writes a setpoint
  as `[(v >> 16) & 0xFFFF, v & 0xFFFF]`. `|` and `&` are modelled bit by bit
  on unbounded naturals, as Python evaluates them. Lemmas show that `|` of
  disjoint bit ranges is `+`, that masking is `mod 2^16`, and that joining
  and splitting are mutual inverses.
- **API client** (`api_client.dfy`, module `ApiClient`). It covers the
  guarded call wrapper `_execute_modbus_sync`, which returns `None` on an
  error reply or any exception and closes on every path. It also covers the
  connection probe and the four telemetry reads that make up one snapshot.
  Each read yields its value, or `None` on an error reply; an exception
  escapes the whole fetch. The model includes the dictionary handed to the
  coordinator and the payloads of the power-limit and clock writes.
- **Coordinator** (`coordinator.dfy`). An update fails when the fetch
  raised, returned `None`, or returned a dictionary whose values are all
  `None`. Otherwise the dictionary is published unchanged.
- **Controller policy** (`control_policy.dfy`). This is the hysteresis rule
  of the standalone controller: the safety cutoff on the calibrated
  temperature, the reserved-power margin, the minimum heater power and the
  minimum setpoint change. The tuning constants are parameters;
  `SourceSettings` holds the shipped values.
- **Controller loop** (`control_loop.dfy`). One iteration covers the clock
  sync whenever the iteration counter is a multiple of `cycle_reset`, the
  status block read, the heater-off write on a failed read, and the policy
  step and setpoint write, and the read-back of the setpoint register,
  where a one-word reply raises and ends the loop after the heater-off
  write. `Run` chains iterations. Over iterations that complete the clock is
  synced every `cycle_reset` iterations. A failed
  read does not advance the counter, so the next iteration repeats the
  failed one's sync decision: a failed read on a sync iteration is followed
  by another sync.
- **Test script** (`ohmpilot_script.dfy`). It covers the script's
  `setPower`, `setTime` and `getStatus`.

The Modbus transport, the clock and the surplus-power estimate are not
modelled as I/O. Each read or write outcome, and the current time `now` in
whole seconds, is a parameter of the function that uses it.

Behaviour of the code worth stating explicitly:

- After a failed or empty status read the controller writes `[0, 0]` to
  40599, skips the counter increment and keeps its state
  (misc/cohmpilot.py:123-126).
- Power and temperature come from one block read, so either both are
  present or neither is; no last-known value is substituted.
- The integration writes the power limit unsplit as `[0, power]`. The
  controller splits its setpoint into high and low words. Both are modelled
  as written; `PowerLimitPayload` shows that they agree exactly when `power`
  fits in one word.
- The integration computes the timezone offset and then sends a fixed 120.
- The controller's clock sync writes only the two time words at 40401,
  not the five-word frame.

## Model

| member | source | states |
|---|---|---|
| Codec.Join32 | custom_components/fronius_ohmpilot/api.py:89-95 | `(r0 << 16) or r1` (bitwise) equals `r0 * 65536 + r1` and is below 2^32 |
| Codec.Join64 | custom_components/fronius_ohmpilot/api.py:98-105 | the left-to-right bitwise or of the four shifted words equals their big-endian sum and is below 2^64 |
| Codec.Int16 | misc/cohmpilot.py:81-82 | `val & 0xFFFF` is `val mod 65536` |
| Codec.Int32FromRegisters | misc/cohmpilot.py:84-85 | joining with `+` gives the same value as the integration's bitwise-or join |
| Codec.Int64FromRegisters | misc/cohmpilot.py:87-88 | joining four words with `+` equals the bitwise-or concatenation |
| Codec.SplitWords | misc/cohmpilot.py:147 | the two masked words are registers and recombine to `v mod 2^32` |
| Codec.SplitThenJoin | misc/cohmpilot.py:84-85 | for `0 <= v < 2^32`, `int32_from_registers` of the split setpoint returns `v` |
| Codec.JoinThenSplit | custom_components/fronius_ohmpilot/api.py:91-93 | splitting a decoded power value gives back exactly `[r0, r1]` |
| Codec.Join64ThenSplit | custom_components/fronius_ohmpilot/api.py:98-107 | the 64-bit energy value decomposes back into the four words it came from |
| Codec.Join64Injective | custom_components/fronius_ohmpilot/api.py:100-105 | two register quadruples with the same energy value are equal |
| ApiClient.ExecuteModbusSync | custom_components/fronius_ohmpilot/api.py:31-57 | the result is the response exactly when it is not an error; `None` on an error reply or any exception; connect comes first and close runs exactly once, last, on every path |
| ApiClient.TestConnection | custom_components/fronius_ohmpilot/api.py:59-66 | the probe returns true if and only if the status read replied without error |
| ApiClient.RaisedBy | custom_components/fronius_ohmpilot/api.py:77-104 | a read that raised propagates its own exception; a short reply raises the indexing error |
| ApiClient.DecodeTemperature | custom_components/fronius_ohmpilot/api.py:85 | the temperature is the raw word divided by 10 exactly and lies in [0, 6553.5] |
| ApiClient.StatusValue | custom_components/fronius_ohmpilot/api.py:77-80 | status is `registers[0]` on success and `None` exactly on an error reply |
| ApiClient.TemperatureValue | custom_components/fronius_ohmpilot/api.py:83-86 | temperature is a tenth of the raw word, and `None` exactly on an error reply |
| ApiClient.PowerValue | custom_components/fronius_ohmpilot/api.py:89-95 | power is `r0 * 65536 + r1` and below 2^32, and `None` exactly on an error reply |
| ApiClient.EnergyValue | custom_components/fronius_ohmpilot/api.py:98-107 | energy is the big-endian value of four words and below 2^64, and `None` exactly on an error reply |
| ApiClient.SyncGetData | custom_components/fronius_ohmpilot/api.py:72-112 | the fetch succeeds if and only if no read raised or came back short; the first such read in read order determines the exception raised, its own or the indexing error of a short reply; each field comes from its own read |
| ApiClient.ErrorReplyClearsOnlyItsField | custom_components/fronius_ohmpilot/api.py:76-107 | an error reply on any one read clears that field and leaves the other three unchanged |
| ApiClient.ToDict | custom_components/fronius_ohmpilot/api.py:70-107 | the dictionary has exactly the keys status, temperature, power and energy, each `None` exactly when its field is absent and otherwise holding that field's value |
| ApiClient.AsyncGetData | custom_components/fronius_ohmpilot/api.py:68-114 | the fetch succeeds exactly when the snapshot read does, then yields the snapshot's dictionary with exactly the four keys; otherwise the snapshot read's exception escapes |
| ApiClient.SetPowerLimit | custom_components/fronius_ohmpilot/api.py:116-122 | the power limit is written at 40599 as the unsplit pair `[0, power]` |
| ApiClient.PowerLimitPayload | custom_components/fronius_ohmpilot/api.py:119 | the unsplit `[0, power]` payload is a register pair if and only if `power < 65536`, and then equals the split encoding and decodes to `power` |
| ApiClient.TimezoneOffsetMinutes | custom_components/fronius_ohmpilot/api.py:148-152 | the offset is the floor, in minutes, of the seconds east of UTC, taken from `altzone` in daylight-saving time and from `timezone` otherwise |
| ApiClient.AsyncSetTime | custom_components/fronius_ohmpilot/api.py:141-159 | five register words `[0, 0, high, low, 120]` at 40399 with `high * 65536 + low == now mod 2^32`; the timezone word is 120 whatever the offset |
| ApiClient.ClockFrameIgnoresTimezone | custom_components/fronius_ohmpilot/api.py:148-155 | the frame does not depend on the local-time flags; an offset of 120 minutes arises for UTC+2 daylight time |
| Coordinator.AsyncUpdateData | custom_components/fronius_ohmpilot/coordinator.py:32-40 | data is published, unchanged, if and only if the fetch returned a dictionary with at least one non-`None` value; every other outcome is an `UpdateFailed` whose message starts with the communication-error prefix |
| Coordinator.AllAbsentFails | custom_components/fronius_ohmpilot/coordinator.py:36-37 | an all-`None` dictionary, the empty one included, is a failed update |
| Coordinator.PartialDataPublished | custom_components/fronius_ohmpilot/coordinator.py:36-38 | one present value suffices for the data to be published unchanged |
| Coordinator.UpdateOverClient | custom_components/fronius_ohmpilot/coordinator.py:35-38 | over the client, an update fails if and only if a read raised, came back short, or all four reads got error replies |
| ControlPolicy.SourceSettingsValid | misc/cohmpilot.py:19-29 | the shipped constants give a positive hysteresis band and a sync period of at least one iteration |
| ControlPolicy.CorrectedTemperature | misc/cohmpilot.py:130 | the corrected temperature minus the offset is the raw tenths times the gain, over ten |
| ControlPolicy.CorrectedTemperatureMonotone | misc/cohmpilot.py:130 | with a non-negative gain a higher raw reading never gives a lower corrected temperature |
| ControlPolicy.SourceCutoffThreshold | misc/cohmpilot.py:129-138 | with the shipped calibration the cutoff holds exactly for raw readings of at least 473 tenths |
| ControlPolicy.Candidate | misc/cohmpilot.py:139 | the candidate is the non-negative clamp of active plus unused minus reserved power |
| ControlPolicy.Policy | misc/cohmpilot.py:137-143 | zero at or above the cutoff; below the cutoff, zero whenever the candidate is under the heater minimum, whatever the previous setpoint; always 0 or at least the heater minimum; always 0, the previous setpoint or the candidate; below the cutoff and above the floor, within the minimum change of the candidate |
| ControlPolicy.PolicyHolds | misc/cohmpilot.py:142-143 | a running previous setpoint within the minimum change of the candidate is kept |
| ControlPolicy.PolicyFollowsCandidate | misc/cohmpilot.py:139-143 | below the cutoff, when the candidate is under the heater minimum or the hold does not apply, the output is the candidate, or 0 under the heater minimum; the floor takes precedence over the hold |
| ControlPolicy.PolicyIdempotent | misc/cohmpilot.py:137-145 | after `set_value_old := set_value`, the same inputs yield the same output |
| ControlPolicy.PolicyMonotone | misc/cohmpilot.py:137-143 | more unused power never lowers the setpoint |
| ControlPolicy.SourceScenarios | misc/cohmpilot.py:137-143 | worked cases: 400 W active and 200 W unused give 495 W; 50 W unused alone gives 0; 505 W against 500 W holds 500 W; 515 W replaces it; a 270 W candidate against a running 280 W gives 0 |
| ControlLoop.CycleReset | misc/cohmpilot.py:113 | `cycle_reset` is the floor of the sync interval over the sleep time, and at least 1 |
| ControlLoop.SourceCycleReset | misc/cohmpilot.py:113 | with the shipped constants `cycle_reset` is 1080 |
| ControlLoop.TimeSync | misc/cohmpilot.py:117-121 | a clock write happens exactly when the counter is a multiple of `cycle_reset`; it holds two register words at 40401 that recombine to `now mod 2^32` |
| ControlLoop.LoopStep | misc/cohmpilot.py:116-158 | an iteration writes the optional clock sync and then one setpoint-register write, plus the heater-off write only when the read-back raises; the clock is synced first exactly when due; a failed or empty read writes `[0, 0]` and leaves the state unchanged; a short block ends the loop after `[0, 0]`; a full block takes power from offsets 1-2 and temperature from offset 9 and writes the policy's setpoint as two words recombining to it mod 2^32; the loop then ends after `[0, 0]` exactly when the read-back is one word, and otherwise stores the setpoint and advances the counter |
| ControlLoop.Run | misc/cohmpilot.py:115-158 | a run makes at most two register writes per iteration, plus one heater-off write if it raised, and, unless it raised, at least one per iteration; a run that raised ended on the heater-off write |
| ControlLoop.RunCountsIterations | misc/cohmpilot.py:116-154 | over iterations that read the full block and whose read-back is not a single word, the loop never stops and the counter advances by one per iteration |
| ControlLoop.FirstIterationSyncs | misc/cohmpilot.py:111-121 | the first iteration syncs the clock |
| ControlLoop.SyncSchedule | misc/cohmpilot.py:112-121 | from the start, over iterations that complete, iteration `k` syncs the clock exactly when `k` is a multiple of `cycle_reset` |
| ControlLoop.FailedReadResyncs | misc/cohmpilot.py:116-126 | an iteration that was due for a sync and whose read failed writes the clock and `[0, 0]`, and the next iteration syncs the clock again |
| ControlLoop.RunKeepsHeaterInRange | misc/cohmpilot.py:137-145 | the stored setpoint stays either 0 or at least the heater minimum across iterations |
| ControlLoop.RunSettles | misc/cohmpilot.py:137-147 | under unchanging inputs that complete, every iteration after the first commands the same power |
| OhmpilotScript.SetPower | misc/ohmpilot.py:5-17 | the given list is written unchanged at 40599 |
| OhmpilotScript.ScriptPowerIs500 | misc/ohmpilot.py:66 | the script's `[0, 500]` equals the split encoding of 500 and decodes to 500 |
| OhmpilotScript.SetTime | misc/ohmpilot.py:45-60 | five register words `[0, 0, high, low, 120]` at 40399 with `high * 65536 + low == now mod 2^32` |
| OhmpilotScript.SetTimeMatchesIntegration | misc/ohmpilot.py:50-54 | the script's clock frame is the integration's, for every timezone setting |
| OhmpilotScript.GetStatus | misc/ohmpilot.py:19-43 | the report exists if and only if every read replied and power and energy are long enough; power is below 2^32 and energy below 2^64, both equal to the controller's `+` decoding |
| OhmpilotScript.GetStatusMatchesIntegration | misc/ohmpilot.py:32-37 | the script decodes status, power and energy exactly as the integration does |

## Left out

- Connecting, closing and the network reads and writes of the Modbus
  client are left out. So are the HTTP session and logging. Each request is
  represented by its outcome.
- `async_set_target_temperature` is left out. It sends a fixed query string
  to a foreign HTTP endpoint and logs any failure.
- The config flow, entity classes (sensor, number, switch), platform setup
  and constants module are left out. They are framework wiring with no logic
  of their own.
- The controller's `get_power_data` is left out: it is never called and
  refers to undefined names.
- CSV logging, signal handlers, `time.sleep`, the clock and the timezone
  lookup are left out. The time `now` and the local-time flags are
  parameters.
- The value of the controller's read-back of the setpoint register is left
  out, because it only feeds the CSV log. Whether that read raises is
  modelled.
- The controller's hard-coded surplus estimate (`unused_power = 500`) is
  left out. The estimate is a parameter of each iteration.
- Transport exceptions inside the controller loop are left out. Such an
  exception would end the loop through the same `finally` clause as the
  short-block case, which is modelled.
- Async scheduling, the coordinator's five-second interval and
  `async_add_executor_job` are left out: they concern timing and threads,
  not values.
- Floating-point rounding in the temperature division and calibration is
  left out. Exact rationals are used instead.
- Codec.Int16: inputs are limited to non-negative values. The function is
  never called in the controller, and the time and setpoint values it would
  mask are non-negative.
- ApiClient.ExecuteModbusSync does not separate `ConnectionException` from
  other exceptions. Both return `None` and differ only in the log message.
- `_sync_get_data` does not call `close()` when a read raises. The model
  records the exception but does not track the open connection.
