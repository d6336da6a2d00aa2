/** The Home Assistant API client (`FroniusOhmpilotApiClient`): the guarded
    Modbus call wrapper, the connection probe, the four telemetry reads that
    make up one data snapshot, and the payloads of the power-limit and clock
    writes.  The Modbus transport itself is abstract: every request is given
    as the outcome it had. */
module ApiClient {
  import opened Outcomes
  import opened Codec

  const StatusAddress: nat := 40799
  const PowerAddress: nat := 40800
  const EnergyAddress: nat := 40804
  const TemperatureAddress: nat := 40808
  const PowerLimitAddress: nat := 40599
  const ClockAddress: nat := 40399

  /** The timezone word the clock frame always carries (+2 h in minutes). */
  const FixedTimezoneMinutes: nat := 120

  /** A Python exception, identified by its message. */
  datatype Exception = Exception(message: string)

  /** Message of the `IndexError` raised by indexing past a short reply. */
  const IndexErrorMessage: string := "list index out of range"

  // ---------------------------------------------------------------------
  // The guarded call wrapper and the connection probe
  // ---------------------------------------------------------------------

  /** What happened when the client was asked to run one request:
      `connect()` raised, the request itself raised (a
      `ConnectionException` or any other exception), or a response came
      back, possibly one whose `isError()` is true. */
  datatype Attempt<T> =
    | ConnectRaises(error: Exception)
    | ActionRaises(error: Exception)
    | Replied(response: T, isError: bool)

  /** Calls made on the client, in order. */
  datatype ClientCall = Connect | Invoke | Close

  /** What `_execute_modbus_sync` returns, with the calls it made. */
  datatype Execution<T> = Execution(result: Option<T>, calls: seq<ClientCall>)

  /** `_execute_modbus_sync(action, *args)`: the response when it is not an
      error, `None` on an error reply or any exception; `close()` runs in the
      `finally` clause on every path. */
  function ExecuteModbusSync<T>(a: Attempt<T>): (x: Execution<T>)
    ensures x.result.Some? <==> a.Replied? && !a.isError
    ensures x.result.Some? ==> x.result.value == a.response
    ensures |x.calls| >= 2 && x.calls[0] == Connect && x.calls[|x.calls| - 1] == Close
    ensures multiset(x.calls)[Close] == 1
    ensures Invoke in x.calls <==> !a.ConnectRaises?
  {
    match a
    case ConnectRaises(_) => Execution(None, [Connect, Close])
    case ActionRaises(_) => Execution(None, [Connect, Invoke, Close])
    case Replied(response, isError) =>
      Execution(if isError then None else Some(response), [Connect, Invoke, Close])
  }

  /** `test_connection()`: a status read through the wrapper, true when its
      result is not `None`. */
  function TestConnection(statusRead: Attempt<seq<Word>>): (ok: bool)
    ensures ok <==> statusRead.Replied? && !statusRead.isError
  {
    ExecuteModbusSync(statusRead).result.Some?
  }

  // ---------------------------------------------------------------------
  // Telemetry snapshot
  // ---------------------------------------------------------------------

  /** One `read_holding_registers` call made by `_sync_get_data`: the
      registers of a good response, an error response, or an exception.
      These calls are not wrapped, so an exception escapes the whole fetch. */
  datatype RegisterRead = Registers(registers: seq<Word>) | ErrorReply | Raises(error: Exception)

  /** A read that lets the fetch go on: an error reply, or a good response
      with at least the `count` registers the decoding indexes. */
  predicate Completes(r: RegisterRead, count: nat) {
    r.ErrorReply? || (r.Registers? && |r.registers| >= count)
  }

  /** The exception a read that does not complete raises: its own, or the
      `IndexError` of indexing past a short reply. */
  function RaisedBy(r: RegisterRead, count: nat): (e: Exception)
    requires !Completes(r, count)
    ensures r.Raises? ==> e == r.error
    ensures r.Registers? ==> e == Exception(IndexErrorMessage)
  {
    if r.Raises? then r.error else Exception(IndexErrorMessage)
  }

  /** `registers[0] / 10`: the temperature in degrees from tenths. */
  function DecodeTemperature(raw: Word): (t: real)
    ensures 0.0 <= t <= 6553.5
    ensures t * 10.0 == raw as real
  {
    raw as real / 10.0
  }

  /** `data["status"]`: `registers[0]`, or `None` on an error reply. */
  function StatusValue(r: RegisterRead): (v: Option<Word>)
    requires Completes(r, 1)
    ensures v.None? <==> r.ErrorReply?
    ensures r.Registers? ==> v == Some(r.registers[0])
  {
    if r.ErrorReply? then None else Some(r.registers[0])
  }

  /** `data["temperature"]`: `registers[0] / 10`, or `None` on an error reply. */
  function TemperatureValue(r: RegisterRead): (v: Option<real>)
    requires Completes(r, 1)
    ensures v.None? <==> r.ErrorReply?
    ensures r.Registers? ==> v.Some? && v.value * 10.0 == r.registers[0] as real
  {
    if r.ErrorReply? then None else Some(DecodeTemperature(r.registers[0]))
  }

  /** `data["power"]`: `(registers[0] << 16) | registers[1]`, or `None`. */
  function PowerValue(r: RegisterRead): (v: Option<nat>)
    requires Completes(r, 2)
    ensures v.None? <==> r.ErrorReply?
    ensures r.Registers? ==> v == Some(r.registers[0] * TwoTo16 + r.registers[1])
    ensures v.Some? ==> v.value < TwoTo32
  {
    if r.ErrorReply? then None else Some(Join32(r.registers[0], r.registers[1]))
  }

  /** `data["energy"]`: the four registers joined with shifts and `|`, or `None`. */
  function EnergyValue(r: RegisterRead): (v: Option<nat>)
    requires Completes(r, 4)
    ensures v.None? <==> r.ErrorReply?
    ensures r.Registers? ==>
              var w := r.registers;
              v == Some(w[0] * TwoTo48 + w[1] * TwoTo32 + w[2] * TwoTo16 + w[3])
    ensures v.Some? ==> v.value < TwoTo64
  {
    if r.ErrorReply? then None
    else Some(Join64(r.registers[0], r.registers[1], r.registers[2], r.registers[3]))
  }

  /** One poll's telemetry; a field is `None` when its read got an error reply. */
  datatype Snapshot = Snapshot(status: Option<Word>, temperature: Option<real>, power: Option<nat>, energy: Option<nat>)

  /** `_sync_get_data()`: status, temperature, power and energy are read in
      this order, each field decoded from its own read only; the first
      exception ends the fetch. */
  function SyncGetData(status: RegisterRead, temperature: RegisterRead, power: RegisterRead, energy: RegisterRead): (d: Result<Snapshot, Exception>)
    ensures d.Success? <==> Completes(status, 1) && Completes(temperature, 1) && Completes(power, 2) && Completes(energy, 4)
    ensures !Completes(status, 1) ==> d == Failure(RaisedBy(status, 1))
    ensures Completes(status, 1) && !Completes(temperature, 1) ==> d == Failure(RaisedBy(temperature, 1))
    ensures Completes(status, 1) && Completes(temperature, 1) && !Completes(power, 2) ==> d == Failure(RaisedBy(power, 2))
    ensures Completes(status, 1) && Completes(temperature, 1) && Completes(power, 2) && !Completes(energy, 4) ==>
              d == Failure(RaisedBy(energy, 4))
    ensures d.Success? ==>
              d.value == Snapshot(StatusValue(status), TemperatureValue(temperature), PowerValue(power), EnergyValue(energy))
  {
    if !Completes(status, 1) then Failure(RaisedBy(status, 1))
    else if !Completes(temperature, 1) then Failure(RaisedBy(temperature, 1))
    else if !Completes(power, 2) then Failure(RaisedBy(power, 2))
    else if !Completes(energy, 4) then Failure(RaisedBy(energy, 4))
    else Success(Snapshot(StatusValue(status), TemperatureValue(temperature), PowerValue(power), EnergyValue(energy)))
  }

  /** A failed read touches its own field only: replacing any one read of a
      successful fetch by an error reply yields the same snapshot with just
      that field cleared. */
  lemma ErrorReplyClearsOnlyItsField(status: RegisterRead, temperature: RegisterRead, power: RegisterRead, energy: RegisterRead)
    requires SyncGetData(status, temperature, power, energy).Success?
    ensures var snap := SyncGetData(status, temperature, power, energy).value;
            && SyncGetData(ErrorReply, temperature, power, energy) == Success(snap.(status := None))
            && SyncGetData(status, ErrorReply, power, energy) == Success(snap.(temperature := None))
            && SyncGetData(status, temperature, ErrorReply, energy) == Success(snap.(power := None))
            && SyncGetData(status, temperature, power, ErrorReply) == Success(snap.(energy := None))
  {
  }

  /** A value of the returned dictionary. */
  datatype Value = IntValue(i: nat) | RealValue(r: real)

  /** The dictionary `async_get_data` returns. */
  type Dict = map<string, Option<Value>>

  const SnapshotKeys: set<string> := {"status", "temperature", "power", "energy"}

  function LiftInt(o: Option<nat>): Option<Value> {
    if o.Some? then Some(IntValue(o.value)) else None
  }

  /** The snapshot as the `data` dictionary filled by `_sync_get_data`. */
  function ToDict(snap: Snapshot): (d: Dict)
    ensures d.Keys == SnapshotKeys
    ensures d["status"].None? <==> snap.status.None?
    ensures d["temperature"].None? <==> snap.temperature.None?
    ensures d["power"].None? <==> snap.power.None?
    ensures d["energy"].None? <==> snap.energy.None?
    ensures snap.status.Some? ==> d["status"] == Some(IntValue(snap.status.value))
    ensures snap.temperature.Some? ==> d["temperature"] == Some(RealValue(snap.temperature.value))
    ensures snap.power.Some? ==> d["power"] == Some(IntValue(snap.power.value))
    ensures snap.energy.Some? ==> d["energy"] == Some(IntValue(snap.energy.value))
  {
    map[
      "status" := LiftInt(snap.status),
      "temperature" := if snap.temperature.Some? then Some(RealValue(snap.temperature.value)) else None,
      "power" := LiftInt(snap.power),
      "energy" := LiftInt(snap.energy)]
  }

  /** `async_get_data()`: the dictionary, or the exception that escaped. */
  function AsyncGetData(status: RegisterRead, temperature: RegisterRead, power: RegisterRead, energy: RegisterRead): (d: Result<Dict, Exception>)
    ensures d.Success? ==> d.value.Keys == SnapshotKeys
    ensures d.Success? <==> SyncGetData(status, temperature, power, energy).Success?
    ensures d.Success? ==> d.value == ToDict(SyncGetData(status, temperature, power, energy).value)
    ensures d.Failure? ==> d.error == SyncGetData(status, temperature, power, energy).error
  {
    var snap := SyncGetData(status, temperature, power, energy);
    if snap.Failure? then Failure(snap.error) else Success(ToDict(snap.value))
  }

  // ---------------------------------------------------------------------
  // Writes
  // ---------------------------------------------------------------------

  /** `async_set_power_limit(power)`: the payload is `[0, power]`, written
      at 40599 without splitting `power` into two words. */
  function SetPowerLimit(power: nat): (w: Write)
    ensures w.address == PowerLimitAddress
    ensures w.values == [0, power]
  {
    Write(PowerLimitAddress, [0, power])
  }

  /** The unsplit payload is a valid register pair, and then carries `power`
      through the 32-bit rule exactly like the split encoding, precisely when
      `power` fits in one word. */
  lemma PowerLimitPayload(power: nat)
    ensures AllWords(SetPowerLimit(power).values) <==> power < TwoTo16
    ensures power < TwoTo16 ==>
              && SetPowerLimit(power).values == SplitWords(power)
              && Int32FromRegisters(SplitWords(power)) == power
  {
    var vs := SetPowerLimit(power).values;
    assert vs[1] == power;
    if power < TwoTo16 {
      JoinThenSplit(0, power);
    }
  }

  /** The timezone offset `async_set_time` computes from the local-time
      flags: `-time.altzone // 60` in daylight-saving time, else
      `-time.timezone // 60` (Python floor division). */
  function TimezoneOffsetMinutes(isDst: int, daylight: bool, altzone: int, timezone: int): (m: int)
    ensures var secondsEast := if isDst > 0 && daylight then -altzone else -timezone;
            m * 60 <= secondsEast < m * 60 + 60
  {
    if isDst > 0 && daylight then (-altzone) / 60 else (-timezone) / 60
  }

  /** `async_set_time()` at wall-clock second `now`: the five-word clock
      frame `[0, 0, high, low, 120]` at 40399.  The offset is computed but
      not used: the timezone word is always 120. */
  function AsyncSetTime(now: nat, isDst: int, daylight: bool, altzone: int, timezone: int): (w: Write)
    ensures w.address == ClockAddress
    ensures |w.values| == 5 && AllWords(w.values)
    ensures w.values[0] == 0 && w.values[1] == 0
    ensures w.values[2] * TwoTo16 + w.values[3] == now % TwoTo32
    ensures w.values[4] == FixedTimezoneMinutes
  {
    var _ := TimezoneOffsetMinutes(isDst, daylight, altzone, timezone);
    var words := SplitWords(now);
    Write(ClockAddress, [0, 0, words[0], words[1], FixedTimezoneMinutes])
  }

  /** The clock frame does not depend on the local-time flags at all. */
  lemma ClockFrameIgnoresTimezone(now: nat, isDst: int, daylight: bool, altzone: int, timezone: int)
    ensures AsyncSetTime(now, isDst, daylight, altzone, timezone) == AsyncSetTime(now, 0, false, 0, 0)
    ensures TimezoneOffsetMinutes(1, true, -7200, -3600) == 120
  {
  }
}
