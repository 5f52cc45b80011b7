/** The button state machine of `button_callback` as a pure transition on
    a snapshot of the firmware's globals. The class `Timer.TimerState`
    implements it in place; this module states what one callback does and
    proves what a single step guarantees. */
module TimerSpec {
  import opened Uint32
  import opened Averaging
  import opened Indicator

  /** `SystemState`. */
  datatype Mode = Idle | Measuring | Paused

  /** GPIO numbers of the two buttons (`BUTTON_A`, `BUTTON_B`). */
  const ButtonA: nat := 5
  const ButtonB: nat := 6
  /** `MAX_MEASUREMENTS` */
  const Capacity: nat := 10
  /** `DEBOUNCE_TIME_MS` */
  const DebounceMs: U32 := 200

  /** The globals `button_callback` reads and writes. */
  datatype Snapshot = Snapshot(
    mode: Mode,            // current_state
    paused: bool,          // system_paused
    start: U32,            // measurement_start
    samples: seq<U32>,     // measurements[]
    count: int,            // measurement_count
    last: U32,             // last_button_time
    average: Average,      // current_average
    led: Colour)           // the colour last requested from set_led_color

  /** The shape the buffer write `measurements[measurement_count++]` needs. */
  predicate WellFormed(s: Snapshot)
  {
    |s.samples| == Capacity && 0 <= s.count < Capacity
  }

  /** The invariant between callbacks: the count stays below the capacity,
      PAUSED is the same as the pause flag, MEASURING never happens while
      paused, and the indicator is dark while paused. The third conjunct
      follows from the second; it is kept as the firmware's own second
      invariant, stated as the display code relies on it. */
  predicate Inv(s: Snapshot)
  {
    && WellFormed(s)
    && (s.mode == Paused <==> s.paused)
    && (s.mode == Measuring ==> !s.paused)
    && (s.paused ==> s.led == Off)
  }

  /** The state at boot: statics are zero-initialised, the LED is dark. */
  function Init(): (s: Snapshot)
    ensures Inv(s)
    ensures s.mode == Idle && !s.paused && s.count == 0 && s.last == 0
    ensures s.average.Value() == 0.0 && s.led == Off
  {
    Snapshot(Idle, false, 0, seq(Capacity, _ => 0), 0, 0, Zero, Off)
  }

  /** The debounce guard: an edge is admitted when at least 200 ms have
      passed since the last admitted edge of EITHER button, measured with
      wrapping `uint32_t` subtraction. */
  predicate Admits(last: U32, now: U32)
    ensures last <= now ==> (Admits(last, now) <==> now as int - last as int >= DebounceMs as int)
    ensures now < last ==> (Admits(last, now) <==> now as int + Modulus - last as int >= DebounceMs as int)
  {
    Sub(now, last) >= DebounceMs
  }

  /** The elapsed time of the measurement that button A finishes at `now`. */
  function Elapsed(s: Snapshot, now: U32): (d: U32)
    ensures Add(s.start, d) == now
    ensures s.start <= now ==> d as int == now as int - s.start as int
  {
    Sub(now, s.start)
  }

  /** The second press of button A: store the duration, recompute the
      average over the buffer including it, reset the count on reaching the
      capacity (keeping the average), then classify against the new average
      and the count as it is after any reset. */
  function Finish(s: Snapshot, d: U32): (r: Snapshot)
    requires WellFormed(s)
    ensures WellFormed(r)
  {
    var samples := s.samples[s.count := d];
    var n := s.count + 1;
    var average := MeanOf(samples[..n]);
    var count := if n >= Capacity then 0 else n;
    s.(samples := samples, count := count, average := average,
       led := Classify(d, average, count), mode := Idle)
  }

  /** One call of `button_callback(gpio, ...)` with the clock reading `now`. */
  function Step(s: Snapshot, gpio: nat, now: U32): (r: Snapshot)
    requires WellFormed(s)
    ensures WellFormed(r)
  {
    if !Admits(s.last, now) then s
    else
      var s1 := s.(last := now);
      if gpio == ButtonB then
        if !s.paused then s1.(paused := true, led := Off, mode := Paused)
        else s1.(paused := false, mode := Idle)
      else if gpio == ButtonA && !s.paused then
        match s.mode
        case Idle => s1.(start := now, mode := Measuring)
        case Measuring => Finish(s1, Elapsed(s, now))
        case Paused => s1
      else s1
  }

  /** The callback completes a measurement. */
  predicate Completes(s: Snapshot, gpio: nat, now: U32)
  {
    Admits(s.last, now) && gpio == ButtonA && !s.paused && s.mode == Measuring
  }

  // ---------------------------------------------------------------------
  // Properties of one callback

  /** The invariant holds at boot and survives every callback. */
  lemma StepPreservesInv(s: Snapshot, gpio: nat, now: U32)
    requires Inv(s)
    ensures Inv(Step(s, gpio, now))
  {
  }

  /** An edge inside the debounce window changes nothing at all, whichever
      button it comes from. */
  lemma DebouncedIsNoOp(s: Snapshot, gpio: nat, now: U32)
    requires WellFormed(s)
    requires Sub(now, s.last) < DebounceMs
    ensures Step(s, gpio, now) == s
  {
  }

  /** An admitted edge records its time as the new debounce reference,
      whichever GPIO raised it. */
  lemma AdmittedSetsLast(s: Snapshot, gpio: nat, now: U32)
    requires WellFormed(s)
    ensures Step(s, gpio, now).last == (if Admits(s.last, now) then now else s.last)
  {
  }

  /** Button B toggles the pause flag: pausing darkens the LED and forces
      PAUSED, resuming forces IDLE (dropping a half-open measurement); the
      buffer, the count and the average are untouched. */
  lemma PressBTogglesPause(s: Snapshot, now: U32)
    requires WellFormed(s) && Admits(s.last, now)
    ensures var r := Step(s, ButtonB, now);
      && r.paused == !s.paused
      && (r.paused ==> r.mode == Paused && r.led == Off)
      && (!r.paused ==> r.mode == Idle && r.led == s.led)
      && r.samples == s.samples && r.count == s.count
      && r.average == s.average && r.start == s.start
  {
  }

  /** Button A while paused only moves the debounce reference. */
  lemma PressAWhilePaused(s: Snapshot, now: U32)
    requires WellFormed(s) && s.paused
    ensures Step(s, ButtonA, now) == s.(last := Step(s, ButtonA, now).last)
  {
  }

  /** Button A in IDLE starts a measurement at `now` and changes nothing
      else. */
  lemma PressAStarts(s: Snapshot, now: U32)
    requires Inv(s) && Admits(s.last, now) && s.mode == Idle
    ensures Step(s, ButtonA, now) == s.(last := now, start := now, mode := Measuring)
  {
  }

  /** Any other GPIO only moves the debounce reference. */
  lemma OtherGpioIsNoOp(s: Snapshot, gpio: nat, now: U32)
    requires WellFormed(s) && gpio != ButtonA && gpio != ButtonB
    ensures Step(s, gpio, now) == s.(last := Step(s, gpio, now).last)
  {
  }

  /** Button A in MEASURING appends `now - start` behind the batch's earlier
      entries, goes back to IDLE, and advances the count modulo 10. */
  lemma PressAFinishes(s: Snapshot, now: U32)
    requires Inv(s) && Completes(s, ButtonA, now)
    ensures var r := Step(s, ButtonA, now);
      && r.mode == Idle && !r.paused && r.last == now && r.start == s.start
      && r.samples[..s.count + 1] == s.samples[..s.count] + [Sub(now, s.start)]
      && r.samples[s.count + 1..] == s.samples[s.count + 1..]
      && r.count == (s.count + 1) % Capacity
  {
    var d := Elapsed(s, now);
    assert Step(s, ButtonA, now).samples == s.samples[s.count := d];
    WriteSlot(s.samples, s.count, d);
  }

  /** Writing slot `i` extends the prefix before it by the new value and
      leaves the slots after it alone. */
  lemma WriteSlot(a: seq<U32>, i: nat, d: U32)
    requires i < |a|
    ensures a[i := d][..i + 1] == a[..i] + [d]
    ensures a[i := d][i + 1..] == a[i + 1..]
  {
  }

  /** Only completed measurements move the count. */
  lemma CountStep(s: Snapshot, gpio: nat, now: U32)
    requires Inv(s)
    ensures Step(s, gpio, now).count ==
      if Completes(s, gpio, now) then (s.count + 1) % Capacity else s.count
  {
    var s1 := s.(last := now);
    if !Admits(s.last, now) {
      assert Step(s, gpio, now) == s;
    } else if gpio == ButtonB {
      assert Step(s, gpio, now).count == s.count;
    } else if Completes(s, gpio, now) {
      assert Step(s, gpio, now) == Finish(s1, Elapsed(s, now));
      assert Finish(s1, Elapsed(s, now)).count == (s.count + 1) % Capacity;
    } else {
      assert Step(s, gpio, now).count == s.count;
    }
  }

  /** After a completed measurement the average is recomputed from scratch
      over the batch's earlier entries plus the new duration, including on
      the tenth measurement, where the count then resets but the average
      stays; every other callback leaves the average alone. */
  lemma AverageStep(s: Snapshot, gpio: nat, now: U32)
    requires Inv(s)
    ensures var r := Step(s, gpio, now);
      Completes(s, gpio, now) ==>
        && r.average.n == s.count + 1
        && r.average.total == (Sum(s.samples[..s.count]) + Elapsed(s, now) as nat) % Modulus
    ensures !Completes(s, gpio, now) ==> Step(s, gpio, now).average == s.average
  {
    if Completes(s, gpio, now) {
      var d := Elapsed(s, now);
      var r := Step(s, gpio, now);
      assert r.samples[..s.count + 1] == s.samples[..s.count] + [d];
      SumAppend(s.samples[..s.count], d);
    }
  }

  /** When the batch's durations do not overflow the accumulator, the new
      average is their exact mean. */
  lemma AverageIsMean(s: Snapshot, now: U32)
    requires Inv(s) && Completes(s, ButtonA, now)
    requires Sum(s.samples[..s.count]) + Elapsed(s, now) as nat < Modulus
    ensures Step(s, ButtonA, now).average.Value() ==
      (Sum(s.samples[..s.count]) + Elapsed(s, now) as nat) as real / (s.count + 1) as real
  {
    var d := Elapsed(s, now);
    var batch := s.samples[..s.count] + [d];
    assert Step(s, ButtonA, now).samples[..s.count + 1] == batch;
    SumAppend(s.samples[..s.count], d);
    MeanIsExactMean(batch);
  }

  /** Classification happens after the reset, so the first and the tenth
      measurement of every batch leave the LED dark; the second to ninth
      are classified against the fresh average by the ±10 % band. */
  lemma IndicatorStep(s: Snapshot, now: U32)
    requires Inv(s) && Completes(s, ButtonA, now)
    ensures var r := Step(s, ButtonA, now);
      && (s.count == 0 || s.count == Capacity - 1 ==> r.led == Off)
      && (0 < s.count < Capacity - 1 ==>
            r.led == ClassifyReal(Elapsed(s, now), r.average, s.count + 1))
  {
    var r := Step(s, ButtonA, now);
    ClassifyAgreesWithReals(Elapsed(s, now), r.average, r.count);
  }

  /** Only a completed measurement or a pause changes the LED. */
  lemma LedStep(s: Snapshot, gpio: nat, now: U32)
    requires Inv(s)
    requires !Completes(s, gpio, now)
    ensures var r := Step(s, gpio, now);
      r.led == (if r.paused && !s.paused then Off else s.led)
  {
  }
}
