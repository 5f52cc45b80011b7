/** Sequences of button edges: what the state machine promises across many
    callbacks, from boot or from any state satisfying its invariant. */
module TimerRuns {
  import opened Uint32
  import opened Averaging
  import opened Indicator
  import opened TimerSpec

  /** One falling edge: the GPIO that raised it and the clock reading. */
  datatype Event = Event(gpio: nat, now: U32)

  /** The state after the callbacks for `evs`, in arrival order. */
  function Run(s: Snapshot, evs: seq<Event>): (r: Snapshot)
    requires WellFormed(s)
    ensures WellFormed(r)
    decreases |evs|
  {
    if evs == [] then s else Run(Step(s, evs[0].gpio, evs[0].now), evs[1..])
  }

  /** How many of the callbacks for `evs` complete a measurement. */
  function Completions(s: Snapshot, evs: seq<Event>): nat
    requires WellFormed(s)
    decreases |evs|
  {
    if evs == [] then 0
    else
      (if Completes(s, evs[0].gpio, evs[0].now) then 1 else 0)
      + Completions(Step(s, evs[0].gpio, evs[0].now), evs[1..])
  }

  /** The durations recorded by the callbacks for `evs`, oldest first. */
  function Durations(s: Snapshot, evs: seq<Event>): seq<U32>
    requires WellFormed(s)
    decreases |evs|
  {
    if evs == [] then []
    else
      (if Completes(s, evs[0].gpio, evs[0].now) then [Elapsed(s, evs[0].now)] else [])
      + Durations(Step(s, evs[0].gpio, evs[0].now), evs[1..])
  }

  /** The batch policy on its own: append each duration, and start an empty
      batch once ten have been collected. */
  function Batch(open: seq<U32>, ds: seq<U32>): seq<U32>
    decreases |ds|
  {
    if ds == [] then open
    else
      var next := open + [ds[0]];
      Batch(if |next| == Capacity then [] else next, ds[1..])
  }

  /** The invariant holds after any run. */
  lemma {:induction false} RunPreservesInv(s: Snapshot, evs: seq<Event>)
    requires Inv(s)
    ensures Inv(Run(s, evs))
    decreases |evs|
  {
    if evs != [] {
      StepPreservesInv(s, evs[0].gpio, evs[0].now);
      RunPreservesInv(Step(s, evs[0].gpio, evs[0].now), evs[1..]);
    }
  }

  /** The count advances by one per completed measurement, modulo 10. */
  lemma {:induction false} RunCount(s: Snapshot, evs: seq<Event>)
    requires Inv(s)
    ensures Run(s, evs).count == (s.count + Completions(s, evs)) % Capacity
    decreases |evs|
  {
    if evs != [] {
      var e := evs[0];
      var s1 := Step(s, e.gpio, e.now);
      CountStep(s, e.gpio, e.now);
      StepPreservesInv(s, e.gpio, e.now);
      RunCount(s1, evs[1..]);
      if Completes(s, e.gpio, e.now) {
        ModAddOne(s.count, Completions(s1, evs[1..]));
      }
    }
  }

  lemma ModAddOne(c: int, k: nat)
    requires 0 <= c < Capacity
    ensures ((c + 1) % Capacity + k) % Capacity == (c + 1 + k) % Capacity
  {
    if c + 1 == Capacity {
      assert (c + 1) % Capacity == 0;
      assert (c + 1 + k) % Capacity == k % Capacity;
    } else {
      assert (c + 1) % Capacity == c + 1;
    }
  }

  /** From boot, after k completed measurements the count is k mod 10. */
  lemma CountAfterMeasurements(evs: seq<Event>)
    ensures Run(Init(), evs).count == Completions(Init(), evs) % Capacity
  {
    RunCount(Init(), evs);
  }

  /** The filled part of the buffer is always the current batch: the
      durations since the last reset, in the order they were measured. */
  lemma {:induction false} RunBatch(s: Snapshot, evs: seq<Event>)
    requires Inv(s)
    ensures var r := Run(s, evs);
      r.samples[..r.count] == Batch(s.samples[..s.count], Durations(s, evs))
    decreases |evs|
  {
    if evs != [] {
      var e := evs[0];
      var s1 := Step(s, e.gpio, e.now);
      StepPreservesInv(s, e.gpio, e.now);
      RunBatch(s1, evs[1..]);
      var rest := Durations(s1, evs[1..]);
      if Completes(s, e.gpio, e.now) {
        var d := Elapsed(s, e.now);
        PressAFinishes(s, e.now);
        var next := s.samples[..s.count] + [d];
        assert Durations(s, evs) == [d] + rest;
        assert ([d] + rest)[0] == d && ([d] + rest)[1..] == rest;
        assert s1.samples[..s1.count] == (if |next| == Capacity then [] else next);
      } else {
        assert Durations(s, evs) == rest;
        assert s1.samples == s.samples && s1.count == s.count;
      }
    }
  }

  /** The batch never holds ten entries: after the tenth it is empty. */
  lemma {:induction false} BatchShort(open: seq<U32>, ds: seq<U32>)
    requires |open| < Capacity
    ensures |Batch(open, ds)| < Capacity
    decreases |ds|
  {
    if ds != [] {
      var next := open + [ds[0]];
      BatchShort(if |next| == Capacity then [] else next, ds[1..]);
    }
  }

  /** `last_button_time` starts at 0, so every edge in the first 200 ms
      after boot is dropped; there is no "first edge always passes". */
  lemma BootWindowRejects(gpio: nat, now: U32)
    requires now < DebounceMs
    ensures Step(Init(), gpio, now) == Init()
  {
  }

  /** One debounce reference serves both buttons: an admitted press of one
      button swallows a press of the other less than 200 ms later. */
  lemma SharedDebounce(s: Snapshot, g1: nat, t1: U32, g2: nat, t2: U32)
    requires WellFormed(s) && Admits(s.last, t1)
    requires Sub(t2, t1) < DebounceMs
    ensures var s1 := Step(s, g1, t1);
      Step(s1, g2, t2) == s1
  {
  }

  /** Pausing in the middle of a measurement abandons it: after pause and
      resume no sample has been recorded and the next press of A starts a
      fresh measurement at its own time. */
  lemma PauseAbandonsMeasurement(s: Snapshot, t1: U32, t2: U32, t3: U32)
    requires Inv(s) && s.mode == Measuring
    requires Admits(s.last, t1) && Admits(t1, t2) && Admits(t2, t3)
    ensures var r := Run(s, [Event(ButtonB, t1), Event(ButtonB, t2), Event(ButtonA, t3)]);
      && r.mode == Measuring && r.start == t3 && r.last == t3
      && r.samples == s.samples && r.count == s.count && r.average == s.average
  {
    var evs := [Event(ButtonB, t1), Event(ButtonB, t2), Event(ButtonA, t3)];
    var s1 := Step(s, ButtonB, t1);
    var s2 := Step(s1, ButtonB, t2);
    var s3 := Step(s2, ButtonA, t3);
    assert s2.mode == Idle && !s2.paused;
    assert evs[1..] == [Event(ButtonB, t2), Event(ButtonA, t3)];
    assert evs[1..][1..] == [Event(ButtonA, t3)];
    calc {
      Run(s, evs);
      Run(s1, evs[1..]);
      Run(s2, evs[1..][1..]);
      Run(s3, evs[1..][1..][1..]);
      { assert evs[1..][1..][1..] == []; }
      s3;
    }
  }

  /** Measurements of 250 ms from boot: the first leaves the LED dark with
      count 1 and average 250; the second is within tolerance of the
      average 250 of [250, 250] and lights Blue. A second press only 50 ms
      after the first falls inside the debounce window and is dropped, so
      that measurement is still running. */
  lemma MeasurementScenario()
    ensures var s1 := Step(Step(Init(), ButtonA, 1000), ButtonA, 1250);
      && s1.led == Off && s1.count == 1 && s1.mode == Idle
      && s1.average.Value() == 250.0
    ensures var s2 := Step(Step(Step(Step(Init(), ButtonA, 1000), ButtonA, 1250),
                                ButtonA, 1500), ButtonA, 1750);
      && s2.led == Blue && s2.count == 2 && s2.average.Value() == 250.0
    ensures var a := Step(Init(), ButtonA, 1000);
      Step(a, ButtonA, 1050) == a && a.mode == Measuring
  {
    var a := Step(Init(), ButtonA, 1000);
    var b := Step(a, ButtonA, 1250);
    assert b.samples[..1] == [250];
    var c := Step(b, ButtonA, 1500);
    var d := Step(c, ButtonA, 1750);
    assert d.samples[..2] == [250, 250];
    assert Sum([250, 250]) == 500;
  }

  /** The LED also stays dark on a second measurement when the batch's
      `uint32_t` sum wraps to 0: two measurements of 2^31 ms each give an
      average of 0, and `current_average == 0` switches the LED off. */
  lemma WrappedAverageDarkensLed()
    ensures var s := Run(Init(), [Event(ButtonA, 1000), Event(ButtonA, 0x8000_03E8),
                                  Event(ButtonA, 0x8000_07D0), Event(ButtonA, 2000)]);
      && s.count == 2 && s.average.total == 0 && s.average.Value() == 0.0
      && s.led == Off
  {
    var evs := [Event(ButtonA, 1000), Event(ButtonA, 0x8000_03E8),
                Event(ButtonA, 0x8000_07D0), Event(ButtonA, 2000)];
    var a := Step(Init(), ButtonA, 1000);
    var b := Step(a, ButtonA, 0x8000_03E8);
    assert b.samples[..1] == [0x8000_0000];
    var c := Step(b, ButtonA, 0x8000_07D0);
    var d := Step(c, ButtonA, 2000);
    assert d.samples[..2] == [0x8000_0000, 0x8000_0000];
    assert Sum([0x8000_0000, 0x8000_0000]) == Modulus;
    calc {
      Run(Init(), evs);
      Run(a, evs[1..]);
      { assert evs[1..][1..] == evs[2..]; }
      Run(b, evs[2..]);
      { assert evs[2..][1..] == evs[3..]; }
      Run(c, evs[3..]);
      { assert evs[3..][1..] == []; }
      Run(d, []);
    }
  }
}
