/** The firmware's module-level state and its interrupt handler, updated
    in place. Each method is proved against the pure model in `TimerSpec`
    and `Averaging`. */
module Timer {
  import opened Uint32
  import opened Averaging
  import opened Indicator
  import opened TimerSpec

  class TimerState {
    var mode: Mode                 // current_state
    var paused: bool               // system_paused
    var start: U32                 // measurement_start
    const measurements: array<U32> // measurements[MAX_MEASUREMENTS]
    var count: int                 // measurement_count
    var lastButtonTime: U32        // last_button_time
    var average: Average           // current_average
    var led: Colour                // colour last requested from the LED

    /** The globals as one value. */
    ghost function Snapshot(): Snapshot
      reads this, measurements
    {
      TimerSpec.Snapshot(mode, paused, start, measurements[..], count,
                         lastButtonTime, average, led)
    }

    /** The invariant between callbacks. */
    ghost predicate Valid()
      reads this, measurements
    {
      Inv(Snapshot())
    }

    /** The state at boot: zero-initialised statics, IDLE, LED dark. */
    constructor ()
      ensures Valid() && Snapshot() == Init()
      ensures fresh(measurements)
    {
      mode := Idle;
      paused := false;
      start := 0;
      measurements := new U32[Capacity](_ => 0);
      count := 0;
      lastButtonTime := 0;
      average := Zero;
      led := Off;
      new;
      assert measurements[..] == seq(Capacity, _ => 0);
    }

    /** `calculate_average`: sums the first `measurement_count` entries in a
        wrapping accumulator and divides by the count; 0 for an empty
        buffer. */
    method CalculateAverage() returns (avg: Average)
      requires 0 <= count <= measurements.Length
      ensures avg == MeanOf(measurements[..count])
      ensures count == 0 ==> avg.Value() == 0.0
      ensures count > 0 ==> avg.n == count && avg.total == Sum(measurements[..count]) % Modulus
    {
      if count == 0 {
        return Zero;
      }
      var sum: U32 := 0;
      for i := 0 to count
        invariant sum == WrappedSum(measurements[..i])
      {
        assert measurements[..i + 1][..i] == measurements[..i];
        sum := Add(sum, measurements[i]);
      }
      assert measurements[..count] == measurements[..count][..count];
      avg := Average(sum as nat, count);
    }

    /** `button_callback(gpio, events)` with the clock reading `now`. */
    method Callback(gpio: nat, now: U32)
      requires Valid()
      modifies this, measurements
      ensures Valid()
      ensures Snapshot() == Step(old(Snapshot()), gpio, now)
    {
      ghost var s := Snapshot();
      StepPreservesInv(s, gpio, now);

      if Sub(now, lastButtonTime) < DebounceMs {
        return;
      }
      lastButtonTime := now;

      if gpio == ButtonB {
        paused := !paused;
        if paused {
          led := Off;
          mode := Paused;
        } else {
          mode := Idle;
        }
      } else if gpio == ButtonA && !paused {
        match mode {
          case Idle =>
            start := now;
            mode := Measuring;
          case Measuring =>
            var elapsed := Sub(now, start);
            measurements[count] := elapsed;
            count := count + 1;
            assert measurements[..] == s.samples[s.count := elapsed];
            if count >= Capacity {
              average := CalculateAverage();
              count := 0;
            } else {
              average := CalculateAverage();
            }
            led := Classify(elapsed, average, count);
            mode := Idle;
          case Paused =>
        }
      }
    }
  }
}
