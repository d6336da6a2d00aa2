/** The one-shot test script: set the clock, set a power limit, read and
    report status, power, energy and temperature.  It does no error handling:
    an error reply or a short reply ends the script. */
module OhmpilotScript {
  import opened Outcomes
  import opened Bits
  import opened Codec
  import ApiClient

  const SetTimeAddress: nat := 40399
  const SetPowerAddress: nat := 40599

  /** `setPower(power)`: the list is written as given at 40599. */
  function SetPower(power: seq<nat>): (w: Write)
    ensures w.address == SetPowerAddress && w.values == power
  {
    Write(SetPowerAddress, power)
  }

  /** The script's `setPower([0, 500])` commands 500 W under the 32-bit rule,
      the same two words the controller's split encoding produces. */
  lemma ScriptPowerIs500()
    ensures SetPower([0, 500]).values == SplitWords(500)
    ensures Int32FromRegisters(SplitWords(500)) == 500
  {
    JoinThenSplit(0, 500);
  }

  /** `setTime()` at wall-clock second `now`: `[0, 0, high, low, 120]` at
      40399, the high and low words taken with shifts and masks. */
  function SetTime(now: nat): (w: Write)
    ensures w.address == SetTimeAddress
    ensures |w.values| == 5 && AllWords(w.values)
    ensures w.values[0] == 0 && w.values[1] == 0 && w.values[4] == 120
    ensures w.values[2] * TwoTo16 + w.values[3] == now % TwoTo32
  {
    var highWord := BitAnd(Shr(now, 16), Mask16);
    var lowWord := BitAnd(now, Mask16);
    AndMask16(Shr(now, 16));
    AndMask16(now);
    Pow2Values();
    ModMul(now, TwoTo16, TwoTo16);
    Write(SetTimeAddress, [0, 0, highWord, lowWord, 120])
  }

  /** The script and the integration send the same clock frame. */
  lemma SetTimeMatchesIntegration(now: nat, isDst: int, daylight: bool, altzone: int, timezone: int)
    ensures SetTime(now) == ApiClient.AsyncSetTime(now, isDst, daylight, altzone, timezone)
  {
    var a := SetTime(now).values;
    var b := ApiClient.AsyncSetTime(now, isDst, daylight, altzone, timezone).values;
    DivModUnique(a[2] * TwoTo16 + a[3], TwoTo16, a[2], a[3]);
    DivModUnique(b[2] * TwoTo16 + b[3], TwoTo16, b[2], b[3]);
    assert a[2] == b[2] && a[3] == b[3];
  }

  /** What `getStatus()` prints: the raw status and temperature register
      lists, and the decoded power and energy. */
  datatype StatusReport = StatusReport(status: seq<Word>, temperature: seq<Word>, power: nat, energy: nat)

  /** `getStatus()` given the four replies (`None` for an error reply, whose
      missing `.registers` raises).  `None` means the script died. */
  function GetStatus(status: Option<seq<Word>>, temperature: Option<seq<Word>>, power: Option<seq<Word>>, energy: Option<seq<Word>>): (r: Option<StatusReport>)
    ensures r.Some? <==>
              status.Some? && temperature.Some? && power.Some? && energy.Some?
              && |power.value| >= 2 && |energy.value| >= 4
    ensures r.Some? ==>
              && r.value.status == status.value && r.value.temperature == temperature.value
              && r.value.power < TwoTo32
              && r.value.power == Int32FromRegisters(power.value)
              && r.value.energy < TwoTo64
              && r.value.energy == Int64FromRegisters(energy.value)
  {
    if status.None? || temperature.None? || power.None? || energy.None? then None
    else if |power.value| < 2 || |energy.value| < 4 then None
    else
      var p := power.value;
      var e := energy.value;
      Some(StatusReport(status.value, temperature.value, Join32(p[0], p[1]), Join64(e[0], e[1], e[2], e[3])))
  }

  /** The script decodes power and energy exactly as the integration does. */
  lemma GetStatusMatchesIntegration(status: seq<Word>, temperature: seq<Word>, power: seq<Word>, energy: seq<Word>)
    requires |status| >= 1 && |temperature| >= 1 && |power| >= 2 && |energy| >= 4
    ensures var report := GetStatus(Some(status), Some(temperature), Some(power), Some(energy));
            var snap := ApiClient.SyncGetData(ApiClient.Registers(status), ApiClient.Registers(temperature),
                                              ApiClient.Registers(power), ApiClient.Registers(energy));
            && report.Some? && snap.Success?
            && snap.value.power == Some(report.value.power)
            && snap.value.energy == Some(report.value.energy)
            && snap.value.status == Some(report.value.status[0])
  {
  }
}
