# Production timer: verified model of the button state machine

The firmware is a handheld production timer for a microcontroller board. Button A starts and stops
the timing of one work interval. The device keeps up to 10 interval durations and their average.
An RGB LED shows whether the latest interval was faster than average (green), slower (red) or
within ±10 % (blue). Button B pauses and resumes the device.

This Dafny project models the part with logic in it, all from `EmbarcatechFinalProject.c`:

- the interrupt handler `button_callback`. It covers the shared debounce guard and the
  IDLE / MEASURING / PAUSED transitions with the `system_paused` flag. It also covers the
  10-slot sample buffer, whose count resets to 0 after the tenth sample while the average is
  kept.
- `calculate_average`.
- `update_led_status`, with the call to `set_led_color` replaced by the colour it requests.
- the status label that `update_display` draws.

Layout:

- `Uint32.dfy` (module `Uint32`): `uint32_t` values (`U32`), with wrapping subtraction and
  addition written out modulo 2^32.
- `Averaging.dfy` (module `Averaging`): the exact sum, the wrapping `uint32_t` accumulator, and
  the average kept exactly as a quotient `total / n`.
- `Indicator.dfy` (module `Indicator`): the colours and the PWM intensities requested for each.
  It holds the ±10 % classification twice: once with integer cross-multiplication
  (`10·t·n < 9·total` for green, `10·t·n > 11·total` for red) and once with real numbers, as the
  C code writes it. A lemma proves the two always agree.
- `TimerSpec.dfy` (module `TimerSpec`): the globals as a value (`Snapshot`), the invariant
  `Inv`, and one callback as a pure transition `Step`, with lemmas about a single step.
- `TimerRuns.dfy` (module `TimerRuns`): runs of many callbacks. It covers invariant
  preservation, the count after k measurements, the buffer holding exactly the current batch,
  the shared debounce window and the boot window.
- `Timer.dfy` (module `Timer`): the class `TimerState`, whose fields are the globals and whose
  samples are an `array<U32>` of length 10. `Callback` updates them in place and is proved to
  produce `Step` of the old state. `CalculateAverage` is the summing loop, proved against
  `MeanOf`.
- `Display.dfy` (module `Display`): the status label.

Behaviours of the firmware worth noting, all kept by the model:

- `last_button_time` starts at 0. Every edge in the first 200 ms after boot is therefore
  dropped; there is no "first edge always passes" rule (`BootWindowRejects`).
- Classification runs after the reset of the count. A post-reset count below 2 leaves the LED
  dark, which is the 1st and the 10th measurement of every batch; the 2nd is classified
  (`IndicatorStep`, `MeasurementScenario`). An average of 0 also leaves it dark, which happens
  with any count when the batch's `uint32_t` sum wraps to a multiple of 2^32
  (`WrappedAverageDarkensLed`).
- Two presses of A 50 ms apart do not make a 50 ms measurement. With the 200 ms debounce the
  second press is dropped and the measurement keeps running (`MeasurementScenario`).
- One debounce timestamp serves both buttons. A press of one button can swallow a press of the
  other less than 200 ms later (`SharedDebounce`).

## Model

| member | source | states |
|---|---|---|
| `Uint32.Sub` | EmbarcatechFinalProject.c:151 | `a - b` on `uint32_t`: the plain difference when `a >= b`, the difference plus 2^32 otherwise |
| `Uint32.Add` | EmbarcatechFinalProject.c:114 | `a + b` on `uint32_t`: the plain sum below 2^32, the sum minus 2^32 otherwise |
| `Uint32.AddSubRoundTrip` | EmbarcatechFinalProject.c:181 | the elapsed time `now - start`, added back to `start`, gives `now` even across one clock wrap |
| `Uint32.SubAddRoundTrip` | EmbarcatechFinalProject.c:181 | a duration added to a start time, then measured from that start time, is the duration itself |
| `Averaging.WrappedSum` | EmbarcatechFinalProject.c:111-115 | the `uint32_t sum` accumulated left to right equals the exact sum of the entries modulo 2^32 (proved by induction through its recursive calls) |
| `Averaging.NoOverflowSum` | EmbarcatechFinalProject.c:111-115 | when the entries add up to less than 2^32, the accumulator is their exact sum |
| `Averaging.Average.Value` | EmbarcatechFinalProject.c:116 | the average times the count is the accumulated sum; it is 0 when the count is 0 |
| `Averaging.MeanOf` | EmbarcatechFinalProject.c:106-117 | `calculate_average` of a buffer prefix: 0 for an empty prefix, otherwise the sum of the prefix modulo 2^32 over its length |
| `Averaging.MeanIsExactMean` | EmbarcatechFinalProject.c:106-117 | without accumulator overflow, the average is the exact arithmetic mean of the entries |
| `Averaging.MeanZeroIff` | EmbarcatechFinalProject.c:108-116 | the average is 0 exactly when the prefix is empty or its sum is 0 modulo 2^32 |
| `Averaging.SumAppend` | EmbarcatechFinalProject.c:182-191 | appending a duration to the batch adds exactly that duration to its sum |
| `Indicator.Channels` | EmbarcatechFinalProject.c:120-144 | each requested intensity is 0 or 1; at most one channel is lit, none exactly for Off, and green, red and blue each go with their own colour |
| `Indicator.Classify` | EmbarcatechFinalProject.c:120-144 | Off / Green / Red / Blue by integer cross-multiplication; a colour is lit only with a non-zero average over at least 2 samples; equal to `ClassifyReal` for all inputs (`ClassifyAgreesWithReals`) |
| `Indicator.ClassifyAgreesWithReals` | EmbarcatechFinalProject.c:122-143 | for every elapsed time, average and count, the cross-multiplied test picks the same colour as the real-valued test against `avg·0.9` and `avg·1.1` |
| `Indicator.ClassifyOffIff` | EmbarcatechFinalProject.c:122-126 | the LED is off exactly when the average is 0 or the count is below 2 |
| `Indicator.ClassifyReal` | EmbarcatechFinalProject.c:128-143 | the real-valued band test against `avg·(1-0.1)` and `avg·(1+0.1)`: Green only below the average, Red only above it, Blue exactly when lit with the time inside the closed band |
| `Indicator.ClassifyBand` | EmbarcatechFinalProject.c:128-143 | with an average and at least 2 samples: green iff `t < 0.9·avg`, red iff `t > 1.1·avg`, blue iff `t` lies in the band with its edges included |
| `Indicator.ClassifyExamples` | EmbarcatechFinalProject.c:128-143 | against an average of 100: 85 is green; 90, 100 and 110 are blue; 115 is red; with one sample it is off |
| `TimerSpec.Admits` | EmbarcatechFinalProject.c:151 | the debounce test: without a clock wrap, admitted iff at least 200 ms passed; across a wrap, iff `now + 2^32 - last` is at least 200 |
| `TimerSpec.Elapsed` | EmbarcatechFinalProject.c:181 | the measured duration added back to the start time gives `now`; without a wrap it is `now - start` |
| `TimerSpec.Init` | EmbarcatechFinalProject.c:36-42 | the boot state (IDLE, not paused, count 0, debounce timestamp 0, average 0, LED dark) satisfies the invariant |
| `TimerSpec.Finish` | EmbarcatechFinalProject.c:179-196 | completing a measurement keeps the 10-slot buffer and a count in 0..9 |
| `TimerSpec.Step` | EmbarcatechFinalProject.c:147-203 | one callback keeps the 10-slot buffer and a count in 0..9, so the write `measurements[measurement_count++]` is always in bounds |
| `TimerSpec.StepPreservesInv` | EmbarcatechFinalProject.c:157-200 | every callback preserves: PAUSED iff paused, MEASURING only when not paused, LED dark while paused, count in 0..9 |
| `TimerSpec.DebouncedIsNoOp` | EmbarcatechFinalProject.c:151-154 | an edge less than 200 ms (wrapping) after the last admitted one leaves the whole state unchanged, for any GPIO |
| `TimerSpec.AdmittedSetsLast` | EmbarcatechFinalProject.c:155 | the debounce timestamp becomes `now` exactly when the edge is admitted, whichever GPIO raised it |
| `TimerSpec.PressBTogglesPause` | EmbarcatechFinalProject.c:157-169 | B flips the pause flag; paused means PAUSED with the LED off, resumed means IDLE; buffer, count, average and start time are untouched |
| `TimerSpec.PressAWhilePaused` | EmbarcatechFinalProject.c:170 | A while paused changes nothing but the debounce timestamp |
| `TimerSpec.PressAStarts` | EmbarcatechFinalProject.c:174-177 | A in IDLE sets the start time to `now`, enters MEASURING, and changes nothing else |
| `TimerSpec.OtherGpioIsNoOp` | EmbarcatechFinalProject.c:157-201 | an edge from any other GPIO changes nothing but the debounce timestamp |
| `TimerSpec.PressAFinishes` | EmbarcatechFinalProject.c:179-196 | A in MEASURING appends `now - start` after the batch's entries, leaves the later slots alone, returns to IDLE, and sets the count to (count + 1) mod 10 |
| `TimerSpec.CountStep` | EmbarcatechFinalProject.c:182-188 | the count moves only on a completed measurement, and then to (count + 1) mod 10 |
| `TimerSpec.AverageStep` | EmbarcatechFinalProject.c:181-192 | after a completed measurement the average is recomputed over the earlier batch entries plus the new one, with n = count + 1 even when the count resets; otherwise the average is unchanged |
| `TimerSpec.AverageIsMean` | EmbarcatechFinalProject.c:184-192 | without overflow, the new average is the exact mean of the batch including the new duration |
| `TimerSpec.IndicatorStep` | EmbarcatechFinalProject.c:184-194 | the 1st and 10th measurements of a batch leave the LED off; the 2nd to 9th get the ±10 % real-valued colour against the fresh average |
| `TimerSpec.LedStep` | EmbarcatechFinalProject.c:157-201 | outside completed measurements, the LED changes only on pausing, to off |
| `TimerRuns.Run` | EmbarcatechFinalProject.c:147-203 | any sequence of callbacks keeps the 10-slot buffer and a count in 0..9 |
| `TimerRuns.RunPreservesInv` | EmbarcatechFinalProject.c:157-200 | the invariant holds after any sequence of callbacks |
| `TimerRuns.RunCount` | EmbarcatechFinalProject.c:182-188 | after any run, count = (initial count + completed measurements) mod 10 |
| `TimerRuns.CountAfterMeasurements` | EmbarcatechFinalProject.c:182-188 | from boot, after k completed measurements the count is k mod 10 |
| `TimerRuns.RunBatch` | EmbarcatechFinalProject.c:181-188 | the filled part of the buffer is the current batch: the durations measured since the last reset, oldest first |
| `TimerRuns.BatchShort` | EmbarcatechFinalProject.c:184-188 | the batch policy never leaves 10 entries open; the tenth empties it |
| `TimerRuns.BootWindowRejects` | EmbarcatechFinalProject.c:40 | because the debounce timestamp starts at 0, any edge before 200 ms after boot changes nothing |
| `TimerRuns.SharedDebounce` | EmbarcatechFinalProject.c:151-155 | an admitted edge of one button swallows any edge of either button within 200 ms |
| `TimerRuns.PauseAbandonsMeasurement` | EmbarcatechFinalProject.c:157-177 | pause and resume during MEASURING record no sample and keep count and average; the next A starts a fresh measurement at its own time |
| `TimerRuns.MeasurementScenario` | EmbarcatechFinalProject.c:147-203 | from boot, a 250 ms measurement gives LED off, count 1, average 250; a second gives blue and count 2; a press 50 ms after the start is dropped |
| `TimerRuns.WrappedAverageDarkensLed` | EmbarcatechFinalProject.c:122 | from boot, two measurements of 2^31 ms wrap the batch sum to 0, so the second measurement (count 2) also leaves the LED off |
| `Timer.TimerState.constructor` | EmbarcatechFinalProject.c:36-42 | the object starts in the boot state with a zeroed 10-slot buffer, which satisfies the invariant |
| `Timer.TimerState.CalculateAverage` | EmbarcatechFinalProject.c:106-117 | the summing loop returns `MeanOf` of the first `count` entries: 0 for count 0, otherwise the sum modulo 2^32 over the count |
| `Timer.TimerState.Callback` | EmbarcatechFinalProject.c:147-203 | the in-place handler keeps the invariant and leaves the globals equal to `Step` of their old value |
| `Display.Label` | EmbarcatechFinalProject.c:81 | the label is one of PAUSED, MEASURING, READY; PAUSED exactly when paused, MEASURING exactly when not paused and measuring |
| `Display.LabelNamesMode` | EmbarcatechFinalProject.c:81 | under the invariant the label is PAUSED, MEASURING or READY exactly when the mode is PAUSED, MEASURING or IDLE |

## Left out

- Hardware bring-up is not modelled: `init_hardware`, `init_pwm`, GPIO and IRQ registration,
  I2C and display setup. It is driver configuration with no decisions in it.
- `set_led_color` writes PWM levels. The model keeps only the colour requested and its three
  intensities (`Channels`).
- `update_display` is not modelled except for the label choice (`Display.Label`). Drawing,
  `snprintf` formatting and the I2C transfer are I/O.
- The main polling loop and `sleep_ms` are timing and I/O. They only redraw the display.
- Interrupt preemption and `volatile` are not modelled: each callback is one atomic step.
- The clock is a parameter `now`. The handler reads the clock up to three times (lines 149, 175
  and 181). The model uses one reading for all three, so it does not cover a millisecond tick
  falling inside one callback.
- The `events` argument of `button_callback` is not modelled. The handler never reads it.
- Float arithmetic is not modelled: `(float)sum / measurement_count` and the `0.9` and `1.1`
  band factors are exact rationals here. Float rounding near the band edges is not captured.
- The `uint32_t` overflow of the sum in `calculate_average` is modelled: the sum is taken
  modulo 2^32. `AverageIsMean` and `MeanIsExactMean` state the exact mean only when the batch
  sums to less than 2^32 ms.
