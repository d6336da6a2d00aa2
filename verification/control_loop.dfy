/** The standalone controller's main loop, one iteration at a time: a clock
    sync every `cycle_reset` iterations, a ten-register status block read,
    the heater-off write when that read fails, and otherwise one policy step
    whose setpoint is written back as two words.  The clock, the block read
    and the unused-power estimate are inputs of each iteration. */
module ControlLoop {
  import opened Outcomes
  import opened Codec
  import opened ControlPolicy

  const SetTimeAddress: nat := 40399
  const SetPowerAddress: nat := 40599
  const StatusAddress: nat := 40799
  const ActPowerAddress: nat := 40800
  const TempAddress: nat := 40808

  /** The clock sync writes only the two time words, two registers into the
      clock frame. */
  const ClockWordsAddress: nat := SetTimeAddress + 2

  /** Registers read from `ADD_STATUS` each iteration. */
  const StatusBlockLength: nat := 10

  /** `[0, 0]` at `ADD_SET_POWER`: heater off. */
  const HeaterOff: Write := Write(SetPowerAddress, [0, 0])

  /** `set_value_old` and `loop_counter`. */
  datatype LoopState = LoopState(setValueOld: nat, loopCounter: nat)

  const Start: LoopState := LoopState(0, 0)

  /** `(TIME_INTERVAL_HOURS * 3600) // SLEEP_SECONDS` */
  function CycleReset(s: Settings): (n: nat)
    requires Valid(s)
    ensures n >= 1
    ensures n * s.sleepSeconds <= s.timeIntervalHours * 3600 < (n + 1) * s.sleepSeconds
  {
    (s.timeIntervalHours * 3600) / s.sleepSeconds
  }

  lemma SourceCycleReset()
    ensures Valid(SourceSettings) && CycleReset(SourceSettings) == 1080
  {
  }

  predicate SyncDue(s: Settings, st: LoopState)
    requires Valid(s)
  {
    st.loopCounter % CycleReset(s) == 0
  }

  /** What one iteration did: carried on with a new state, or raised, in
      which case the `finally` clause turned the heater off and the loop
      ended.  `writes` lists the register writes in order. */
  datatype Step = Continue(state: LoopState, writes: seq<Write>) | Halted(writes: seq<Write>)

  /** `[(now >> 16) & 0xFFFF, now & 0xFFFF]` at `ADD_SET_TIME + 2` when the
      counter is a multiple of `cycle_reset`. */
  function TimeSync(s: Settings, st: LoopState, now: nat): (w: seq<Write>)
    requires Valid(s)
    ensures |w| <= 1
    ensures |w| == 1 <==> SyncDue(s, st)
    ensures |w| == 1 ==>
              && w[0].address == ClockWordsAddress && |w[0].values| == 2 && AllWords(w[0].values)
              && w[0].values[0] * TwoTo16 + w[0].values[1] == now % TwoTo32
  {
    if st.loopCounter % CycleReset(s) == 0 then [Write(ClockWordsAddress, SplitWords(now))] else []
  }

  /** `if not status_regs`: no reply (an error) or an empty one. */
  predicate ReadFailed(block: Option<seq<Word>>) {
    block.None? || |block.value| == 0
  }

  /** A reply holding the whole status block. */
  predicate FullBlock(block: Option<seq<Word>>) {
    block.Some? && |block.value| >= StatusBlockLength
  }

  /** The read-back of the setpoint register after the write: a one-word
      reply makes `int32_from_registers` index past its end, and the
      `IndexError` leaves the loop through the `finally` clause.  No reply or
      an empty one reads as 0, and a full one only feeds the log. */
  predicate ReadBackRaises(readBack: Option<seq<Word>>) {
    readBack.Some? && |readBack.value| == 1
  }

  /** An iteration that reaches `loop_counter += 1`. */
  predicate Completes(block: Option<seq<Word>>, readBack: Option<seq<Word>>) {
    FullBlock(block) && !ReadBackRaises(readBack)
  }

  /** One pass of `while running:`.  The `continue` after a failed read
      skips the counter increment, so the state is left as it was. */
  function LoopStep(s: Settings, st: LoopState, now: nat, block: Option<seq<Word>>, readBack: Option<seq<Word>>, unusedPower: int): (r: Step)
    requires Valid(s)
    ensures |r.writes| >= 1 && r.writes[|r.writes| - 1].address == SetPowerAddress
    ensures SyncDue(s, st) <==> r.writes[0].address == ClockWordsAddress
    ensures !(FullBlock(block) && ReadBackRaises(readBack)) ==> r.writes == TimeSync(s, st, now) + [r.writes[|r.writes| - 1]]
    ensures ReadFailed(block) ==> r.Continue? && r.state == st && r.writes[|r.writes| - 1] == HeaterOff
    ensures !ReadFailed(block) && !FullBlock(block) ==> r.Halted? && r.writes[|r.writes| - 1] == HeaterOff
    ensures FullBlock(block) ==>
              var regs := block.value;
              var setValue := Policy(s, CorrectedTemperature(s, regs[9]), regs[1] * TwoTo16 + regs[2], unusedPower, st.setValueOld);
              var sync := TimeSync(s, st, now);
              && |r.writes| > |sync|
              && r.writes[|sync|].address == SetPowerAddress
              && (var payload := r.writes[|sync|].values;
                  |payload| == 2 && AllWords(payload)
                  && payload[0] * TwoTo16 + payload[1] == setValue % TwoTo32)
              && (r.Halted? <==> ReadBackRaises(readBack))
              && (r.Continue? ==> r.state == LoopState(setValue, st.loopCounter + 1))
              && (r.Halted? ==> r.writes == sync + [r.writes[|sync|], HeaterOff])
  {
    var sync := TimeSync(s, st, now);
    if ReadFailed(block) then
      Continue(st, sync + [HeaterOff])
    else if |block.value| < StatusBlockLength then
      Halted(sync + [HeaterOff])
    else
      var regs := block.value;
      var actPower := Int32FromRegisters(regs[ActPowerAddress - StatusAddress..]);
      var tempCorr := CorrectedTemperature(s, regs[TempAddress - StatusAddress]);
      var setValue := Policy(s, tempCorr, actPower, unusedPower, st.setValueOld);
      var setPoint := Write(SetPowerAddress, SplitWords(setValue));
      if ReadBackRaises(readBack) then Halted(sync + [setPoint, HeaterOff])
      else Continue(LoopState(setValue, st.loopCounter + 1), sync + [setPoint])
  }

  /** The heater is either off or at least at its minimum power. */
  predicate HeaterInRange(s: Settings, st: LoopState) {
    st.setValueOld == 0 || st.setValueOld >= s.minHeaterPower
  }

  /** The inputs of one iteration. */
  datatype Input = Input(now: nat, block: Option<seq<Word>>, readBack: Option<seq<Word>>, unusedPower: int)

  /** Iterations in sequence until one raises.  Each iteration makes one or
      two writes, and the one that raised may add the heater-off write as a
      third; a run that raised ended on that write. */
  function Run(s: Settings, st: LoopState, inputs: seq<Input>): (r: Step)
    requires Valid(s)
    ensures |inputs| == 0 ==> r == Continue(st, [])
    ensures |r.writes| <= 2 * |inputs| + (if r.Halted? then 1 else 0)
    ensures r.Continue? ==> |r.writes| >= |inputs|
    ensures r.Halted? ==> |r.writes| >= 1 && r.writes[|r.writes| - 1] == HeaterOff
    decreases |inputs|
  {
    if |inputs| == 0 then Continue(st, [])
    else
      match LoopStep(s, st, inputs[0].now, inputs[0].block, inputs[0].readBack, inputs[0].unusedPower)
      case Halted(w) => Halted(w)
      case Continue(next, w) =>
        var rest := Run(s, next, inputs[1..]);
        if rest.Halted? then Halted(w + rest.writes) else Continue(rest.state, w + rest.writes)
  }

  /** Every iteration reads the full block and survives the read-back. */
  predicate AllComplete(inputs: seq<Input>) {
    forall i :: 0 <= i < |inputs| ==> Completes(inputs[i].block, inputs[i].readBack)
  }

  /** Every full iteration advances the counter by one. */
  lemma {:induction false} RunCountsIterations(s: Settings, st: LoopState, inputs: seq<Input>)
    requires Valid(s)
    requires AllComplete(inputs)
    ensures Run(s, st, inputs).Continue?
    ensures Run(s, st, inputs).state.loopCounter == st.loopCounter + |inputs|
    decreases |inputs|
  {
    if |inputs| > 0 {
      var next := LoopStep(s, st, inputs[0].now, inputs[0].block, inputs[0].readBack, inputs[0].unusedPower).state;
      assert AllComplete(inputs[1..]) by {
        forall i | 0 <= i < |inputs[1..]| ensures Completes(inputs[1..][i].block, inputs[1..][i].readBack) {
          assert inputs[1..][i] == inputs[i + 1];
        }
      }
      RunCountsIterations(s, next, inputs[1..]);
    }
  }

  /** The first iteration syncs the clock. */
  lemma FirstIterationSyncs(s: Settings)
    requires Valid(s)
    ensures SyncDue(s, Start)
  {
  }

  /** From the start, over iterations whose reads all return the full
      block, the clock is synced on iteration `k` (counting from 0) exactly
      when `k` is a multiple of `cycle_reset`. */
  lemma {:induction false} SyncSchedule(s: Settings, inputs: seq<Input>)
    requires Valid(s)
    requires AllComplete(inputs)
    ensures Run(s, Start, inputs).Continue?
    ensures SyncDue(s, Run(s, Start, inputs).state) <==> |inputs| % CycleReset(s) == 0
  {
    RunCountsIterations(s, Start, inputs);
  }

  /** A failed read does not advance the counter, so an iteration that was
      due for a clock sync and failed its read leaves the next one due as
      well: from the start, a failed first read makes the second iteration
      sync the clock again. */
  lemma {:induction false} FailedReadResyncs(s: Settings, st: LoopState, failed: Input, next: Input)
    requires Valid(s)
    requires ReadFailed(failed.block)
    requires SyncDue(s, st)
    ensures var r := Run(s, st, [failed, next]);
            && |r.writes| >= 3
            && r.writes[0].address == ClockWordsAddress
            && r.writes[1] == HeaterOff
            && r.writes[2].address == ClockWordsAddress
  {
    var first := LoopStep(s, st, failed.now, failed.block, failed.readBack, failed.unusedPower);
    assert first == Continue(st, TimeSync(s, st, failed.now) + [HeaterOff]);
    var second := LoopStep(s, st, next.now, next.block, next.readBack, next.unusedPower);
    assert [failed, next][1..] == [next];
    assert Run(s, st, [next]).writes == second.writes by {
      assert [next][1..] == [];
    }
  }

  /** Every iteration keeps the heater off or at least at its minimum. */
  lemma {:induction false} RunKeepsHeaterInRange(s: Settings, st: LoopState, inputs: seq<Input>)
    requires Valid(s)
    requires HeaterInRange(s, st)
    ensures Run(s, st, inputs).Continue? ==> HeaterInRange(s, Run(s, st, inputs).state)
    decreases |inputs|
  {
    if |inputs| > 0 {
      var step := LoopStep(s, st, inputs[0].now, inputs[0].block, inputs[0].readBack, inputs[0].unusedPower);
      if step.Continue? {
        RunKeepsHeaterInRange(s, step.state, inputs[1..]);
      }
    }
  }

  /** Under unchanging conditions the setpoint settles after one iteration:
      every later iteration commands the same power. */
  lemma {:induction false} RunSettles(s: Settings, st: LoopState, inp: Input, n: nat)
    requires Valid(s)
    requires Completes(inp.block, inp.readBack)
    requires n >= 1
    ensures Run(s, st, seq(n, _ => inp)).Continue?
    ensures Run(s, st, seq(n, _ => inp)).state.setValueOld ==
            LoopStep(s, st, inp.now, inp.block, inp.readBack, inp.unusedPower).state.setValueOld
    decreases n
  {
    var inputs := seq(n, _ => inp);
    var first := LoopStep(s, st, inp.now, inp.block, inp.readBack, inp.unusedPower);
    assert inputs[0] == inp;
    if n > 1 {
      assert inputs[1..] == seq(n - 1, _ => inp);
      RunSettles(s, first.state, inp, n - 1);
      var regs := inp.block.value;
      PolicyIdempotent(s, CorrectedTemperature(s, regs[9]), regs[1] * TwoTo16 + regs[2], inp.unusedPower, st.setValueOld);
    } else {
      assert inputs[1..] == [];
    }
  }
}
