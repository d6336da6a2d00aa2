/** The standalone controller's heater policy: from the device's corrected
    temperature, its active power, the unused (surplus) power and the previous
    setpoint, the heater power to command next.  The tuning constants are
    parameters; `SourceSettings` holds the values the controller ships with. */
module ControlPolicy {

  /** Temperature calibration, power thresholds and loop timing. */
  datatype Settings = Settings(
    tempK: real,              // TEMP_K, calibration gain
    tempD: real,              // TEMP_D, calibration offset
    maxTemp: real,            // MAX_TEMP, safety cutoff in degrees
    timeIntervalHours: nat,   // TIME_INTERVAL_HOURS between clock syncs
    minHeaterPower: nat,      // MIN_HEATER_POWER, W
    reservedPower: nat,       // RESERVED_POWER, W withheld from the heater
    minSetPowerChange: nat,   // MIN_SET_POWER_CHANGE, W
    sleepSeconds: nat)        // SLEEP_SECONDS per loop iteration

  const SourceSettings: Settings := Settings(1.03, 3.80, 52.5, 6, 275, 105, 15, 20)

  /** What the policy and the loop rely on: a positive hysteresis band and a
      sync period of at least one iteration. */
  predicate Valid(s: Settings) {
    && s.minSetPowerChange > 0
    && s.sleepSeconds > 0
    && s.timeIntervalHours * 3600 >= s.sleepSeconds
  }

  lemma SourceSettingsValid()
    ensures Valid(SourceSettings)
  {
  }

  /** `(temp_raw / 10.0) * TEMP_K + TEMP_D`, in exact arithmetic. */
  function CorrectedTemperature(s: Settings, raw: nat): (t: real)
    ensures (t - s.tempD) * 10.0 == raw as real * s.tempK
  {
    (raw as real / 10.0) * s.tempK + s.tempD
  }

  /** With a non-negative gain a hotter raw reading never gives a lower
      corrected temperature. */
  lemma CorrectedTemperatureMonotone(s: Settings, raw1: nat, raw2: nat)
    requires s.tempK >= 0.0 && raw1 <= raw2
    ensures CorrectedTemperature(s, raw1) <= CorrectedTemperature(s, raw2)
  {
    assert (raw2 as real - raw1 as real) * s.tempK >= 0.0;
  }

  /** With the shipped calibration the cutoff is reached from a raw reading
      of 473 tenths upward. */
  lemma SourceCutoffThreshold(raw: nat)
    ensures CorrectedTemperature(SourceSettings, raw) >= SourceSettings.maxTemp <==> raw >= 473
  {
    var t := CorrectedTemperature(SourceSettings, raw);
    assert t * 1000.0 == raw as real * 103.0 + 3800.0;
  }

  /** `max(0, actpower + unused_power - RESERVED_POWER)` */
  function Candidate(s: Settings, actPower: nat, unusedPower: int): (c: nat)
    ensures c >= actPower + unusedPower - s.reservedPower
    ensures c == 0 || c == actPower + unusedPower - s.reservedPower
  {
    if actPower + unusedPower - s.reservedPower > 0 then actPower + unusedPower - s.reservedPower else 0
  }

  function Abs(x: int): nat {
    if x < 0 then -x else x
  }

  /** The next heater setpoint: zero at or above the cutoff temperature or
      when the available power is below the heater's minimum; otherwise the
      available power, unless it differs from a running previous setpoint by
      less than the minimum change, in which case the previous setpoint is
      kept. */
  function Policy(s: Settings, tempCorr: real, actPower: nat, unusedPower: int, prev: nat): (r: nat)
    ensures tempCorr >= s.maxTemp ==> r == 0
    ensures tempCorr < s.maxTemp && Candidate(s, actPower, unusedPower) < s.minHeaterPower ==> r == 0
    ensures r == 0 || r >= s.minHeaterPower
    ensures r == 0 || r == prev || r == Candidate(s, actPower, unusedPower)
    ensures tempCorr < s.maxTemp && Candidate(s, actPower, unusedPower) >= s.minHeaterPower ==>
              Abs(r - Candidate(s, actPower, unusedPower)) < s.minSetPowerChange || r == Candidate(s, actPower, unusedPower)
  {
    if tempCorr < s.maxTemp then
      var c := Candidate(s, actPower, unusedPower);
      if c < s.minHeaterPower then 0
      else if prev >= s.minHeaterPower && Abs(c - prev) < s.minSetPowerChange then prev
      else c
    else 0
  }

  /** Hysteresis hold: a running setpoint within the minimum change of the
      candidate is kept. */
  lemma PolicyHolds(s: Settings, tempCorr: real, actPower: nat, unusedPower: int, prev: nat)
    requires tempCorr < s.maxTemp
    requires Candidate(s, actPower, unusedPower) >= s.minHeaterPower
    requires prev >= s.minHeaterPower
    requires Abs(Candidate(s, actPower, unusedPower) - prev) < s.minSetPowerChange
    ensures Policy(s, tempCorr, actPower, unusedPower, prev) == prev
  {
  }

  /** Outside the hold, below the cutoff, the output is the candidate, or
      zero when the candidate is under the heater minimum.  The floor is
      tested first, so a candidate under the minimum gives zero even when a
      running setpoint lies within the minimum change of it. */
  lemma PolicyFollowsCandidate(s: Settings, tempCorr: real, actPower: nat, unusedPower: int, prev: nat)
    requires tempCorr < s.maxTemp
    requires || Candidate(s, actPower, unusedPower) < s.minHeaterPower
             || prev < s.minHeaterPower
             || Abs(Candidate(s, actPower, unusedPower) - prev) >= s.minSetPowerChange
    ensures var c := Candidate(s, actPower, unusedPower);
            Policy(s, tempCorr, actPower, unusedPower, prev) == (if c < s.minHeaterPower then 0 else c)
  {
  }

  /** Feeding the output back as the previous setpoint changes nothing:
      once `set_value_old := set_value`, the same inputs give the same
      output again. */
  lemma PolicyIdempotent(s: Settings, tempCorr: real, actPower: nat, unusedPower: int, prev: nat)
    ensures var r := Policy(s, tempCorr, actPower, unusedPower, prev);
            Policy(s, tempCorr, actPower, unusedPower, r) == r
  {
  }

  /** More unused power never lowers the setpoint. */
  lemma PolicyMonotone(s: Settings, tempCorr: real, actPower: nat, u1: int, u2: int, prev: nat)
    requires u1 <= u2
    ensures Policy(s, tempCorr, actPower, u1, prev) <= Policy(s, tempCorr, actPower, u2, prev)
  {
  }

  /** Worked cases with the shipped settings, below the cutoff. */
  lemma SourceScenarios(tempCorr: real)
    requires tempCorr < 52.5
    ensures Policy(SourceSettings, tempCorr, 400, 200, 0) == 495
    ensures Policy(SourceSettings, tempCorr, 0, 50, 0) == 0
    ensures Policy(SourceSettings, tempCorr, 405, 205, 500) == 500
    ensures Policy(SourceSettings, tempCorr, 415, 205, 500) == 515
    ensures Policy(SourceSettings, tempCorr, 0, 375, 280) == 0
  {
  }
}
