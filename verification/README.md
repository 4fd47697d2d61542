# Humidity indicator: override and debounce state machine

This project models the control core of a MicroPython humidity indicator. It covers four pieces:

- The `HumiditySensor` object (HumiditySensor.py). It holds two debounced push-button handlers, a first-press-wins colour override that expires after 2000 ms, and the humidity-to-colour band table.
- The body of the main loop (main.py). On each pass it reads the sensor. If the read succeeds, it writes the band colour, lets the override check overwrite that colour, and switches the buzzer at 80 %.
- MicroPython's `time.ticks_diff`. It is defined explicitly as the signed difference modulo the tick period `TICKS_PERIOD = 2^30` (the 32-bit ports, the ESP32 among them), so counter wraparound is part of the model.
- An `Event` trace model. A button handler running to completion and one loop iteration are each an atomic event, and the events may come in any order. Lemmas over finite runs of events state what holds under every interleaving.

Modules:

- `Wrappers` holds `Option`.
- `Ticks` holds `TicksDiff` and `TicksAdd`.
- `Colors` holds the palette, the band table and `BandColor`.
- `Sensor` holds the state machine. The pure functions `Edge`, `Poll` and `OverrideColor` work on a `SensorState` value. The `HumiditySensor` class has the five source fields, the LED duties and a ghost log of LED writes. The handlers and the expiry check are proved equal to `Edge` and `Poll`; the two LED methods state the duties and the log of writes directly.
- `ControlLoop` holds the loop iteration `Iterate` and the trace model `Apply`/`Run`. Its `Controller` class owns the sensor object and the buzzer duty, and `Controller.Step` is proved equal to `Iterate`.

The clock is a parameter: every operation receives the tick `now` instead of calling `time.ticks_ms()`. A sensor reading is an `Option<Reading>`, where `None` stands for a failed `read_humidity()`.

Some consequences of the code as written:

- An edge is accepted only if its button's last accepted edge lies at least 200 ms back by `ticks_diff`. `Sensor.DebounceAcrossWrap` shows edges at 0, 50, 150 and 250 ms after a wrap, with the first and last accepted.
- Both debounce stamps start at 0, but the handlers are registered only after the two-second pause in `__init__`, so a button's first edge comes at tick 2000 or later and, if it comes before the counter reaches half a period (about 6.2 days), it is accepted; the first edge of either button starts that button's override (`Sensor.FirstEdgeAfterSetupAccepted`). A button never pressed keeps the stamp 0, so after the counter wraps (about 12.4 days) its edges in the first 200 ms of the new cycle are discarded (`Sensor.NeverPressedStampAfterWrap`).
- The override colour is kept as the integer code of the source (0 none, 1 cyan, 2 pink), not as an enumeration. Expiry clears it to 0 together with the active flag, so when handlers and expiry checks run as indivisible calls, the invariant "active iff colour != 0" holds (`Sensor.Consistent`). The model assumes no handler runs between the two stores that end an override; see "## Left out".
- Because `ticks_diff` is modular, a button left idle for half a tick period or more (about 6.2 days) reads its elapsed time as negative. Its edges are then discarded until the counter comes round again (`Sensor.LongIdleButtonIgnored`). This follows from the code as written.

## Model

| member | source | states |
|---|---|---|
| Ticks.TicksDiff | HumiditySensor.py:93 | the difference lies in [-2^29, 2^29) and advancing `start` by it, modulo the period, reaches `end` |
| Ticks.TicksDiffUnique | HumiditySensor.py:129 | those two properties determine the difference uniquely |
| Ticks.ElapsedAcrossWrap | HumiditySensor.py:129 | for every offset `d` in the signed window, `ticks_diff(ticks_add(t, d), t) == d`: elapsed time survives wraparound |
| Ticks.LongIntervalReadsNegative | HumiditySensor.py:107 | a forward distance of half a period or more reads as a negative difference |
| Colors.PaletteInDutyRange | HumiditySensor.py:6-15 | every one of the ten palette colours has all three channels in 0..1023 |
| Colors.BandFrom | HumiditySensor.py:58-74 | walking the ascending thresholds from band k stops at the first band whose exclusive upper bound lies above h, with every earlier bound at or below h |
| Colors.BandIndex | HumiditySensor.py:58-74 | every humidity lies in some band of the table |
| Colors.BandIndexUnique | HumiditySensor.py:58-74 | it lies in no other band: the bands are disjoint |
| Colors.BandColor | HumiditySensor.py:58-74 | the chosen colour is a band colour and fits the PWM duty range |
| Colors.BandColorIsTableEntry | HumiditySensor.py:58-74 | the if/elif chain picks table entry i if and only if h lies in band i (h<30 OFF, 30-40 WHITE, ..., 80-90 RED, h>=90 PURPLE) |
| Colors.BandBoundaries | HumiditySensor.py:59-73 | the thresholds are exclusive upper bounds: 29.9 OFF, 30 WHITE, 79.9 ORANGE, 80 RED, 89.9 RED, 90 PURPLE |
| Sensor.Edge | HumiditySensor.py:90-116 | a bounce (ticks_diff < 200) changes nothing; an accepted edge stamps its own button with `now` and never the other's; while active the override is untouched (first press wins); from idle it starts now with pink (left) or cyan (right); consistency is preserved |
| Sensor.OverrideColor | HumiditySensor.py:120-127 | cyan for code 1 and pink for code 2 while active, nothing for any other code; for a consistent state a colour is written if and only if the override is active |
| Sensor.Poll | HumiditySensor.py:118-132 | the override stays active if and only if it was active and fewer than 2000 ms have elapsed; an ended override has its colour cleared to 0; an idle or still-running state is unchanged; the start time and debounce stamps are never touched; consistency is preserved |
| Sensor.FirstEdgeAfterSetupAccepted | HumiditySensor.py:45-50 | while a button's stamp is still 0, its edge at a tick from 2000 (handlers registered after the 2 s pause) up to half a period is accepted and stamped, and starts its override if none is running |
| Sensor.NeverPressedStampAfterWrap | HumiditySensor.py:37-41 | a button whose stamp is still the initial 0 discards edges in the first 200 ms of a counter cycle |
| Sensor.LongIdleButtonIgnored | HumiditySensor.py:93-94 | an edge whose forward distance from its button's stamp is half a period or more is discarded |
| Sensor.DebounceAcrossWrap | HumiditySensor.py:93-96 | edges at 0, 50, 150, 250 ms after a wrap: those at 0 and 250 are accepted, the two in between are not |
| Sensor.ExpiryTimeline | HumiditySensor.py:129-131 | activation at 1000: the check at 2999 keeps it, the check at 3000 still shows pink and ends it, the check at 3001 shows nothing |
| Sensor.HumiditySensor.constructor | HumiditySensor.py:36-41 | all five fields start inactive and zero, the LED is off with no writes, and the invariant holds |
| Sensor.HumiditySensor.SetColorToRgbLed | HumiditySensor.py:52-55 | the LED holds the given duties and the write is appended to the log |
| Sensor.HumiditySensor.UpdateLedColorBasedOnHumidity | HumiditySensor.py:58-74 | exactly one write, of the band colour of h |
| Sensor.HumiditySensor.LeftSwitchHandler | HumiditySensor.py:90-102 | the new fields are `Edge(old, Left, now)`; the LED is untouched; the invariant is preserved |
| Sensor.HumiditySensor.RightSwitchHandler | HumiditySensor.py:104-116 | the new fields are `Edge(old, Right, now)`; the LED is untouched; the invariant is preserved |
| Sensor.HumiditySensor.CheckAndHandleInterrupt | HumiditySensor.py:118-132 | the new fields are `Poll(old, now)`; it writes the override colour exactly when one is active, and nothing otherwise; the invariant is preserved |
| ControlLoop.BuzzerDuty | main.py:19-24 | the duty is 512 if and only if humidity >= 80, and 0 if and only if humidity < 80 |
| ControlLoop.Iterate | main.py:13-24 | a failed read changes nothing; a successful one writes the band colour and then the override colour if any; the LED ends on the override colour if the override was active at the check, otherwise on the band colour; it runs the expiry check and sets the buzzer duty |
| ControlLoop.RunStaysHealthy | HumiditySensor.py:98-131 | under any interleaving of indivisible edge handlers and iterations, "active iff colour != 0" holds throughout (the other conjunct, "LED shows the last write", holds by construction of `Iterate`) |
| ControlLoop.FailedReadsChangeNothing | main.py:13-17 | any run of failed reads leaves the whole state unchanged, so the override is not cleared |
| ControlLoop.OverrideHeldWithoutSuccessfulRead | main.py:15-17 | while no read succeeds, edges of either button and failed reads leave an active override exactly as it is, and the LED and buzzer untouched |
| ControlLoop.OverrideEndsOnlyAfterDuration | HumiditySensor.py:129-131 | an override that disappears during a run was cleared by a successful read at least 2000 ms (by ticks_diff) after it started |
| ControlLoop.FirstPressWinsScenario | main.py:13-24 | left at 1000 then right at 1010: pink at the reads at 2000 and 3000, cleared at 3000, band colour (red at 85 %) at 5000, with the buzzer on |
| ControlLoop.Controller.constructor | main.py:7-10 | the sensor is fresh and in its initial state, and the buzzer duty is 0 |
| ControlLoop.Controller.Step | main.py:13-24 | the object state after one loop body equals `Iterate` applied to the state before |

## Left out

- Hardware setup and actuator calls are not modelled: PWM and pin construction, DHT22 construction and IRQ registration. They are calls into MicroPython's `machine` and `dht` modules. The LED and buzzer are fields holding the duties last written.
- `read_humidity` is not modelled. It wraps the DHT22 driver in try/except, so its result is an `Option<Reading>` input to the step. The temperature is carried in `Reading` but affects no decision.
- `time.sleep` pauses and `print` logging are left out. They have no effect on the modelled state.
- Real interrupt preemption is not modelled. Each handler is an indivisible call, and handlers and loop iterations interleave only at call boundaries. In particular, the model assumes no handler runs between HumiditySensor.py:130 (`interrupt_active = False`) and :131 (`interrupt_color = 0`). A handler running there would leave the override active with colour 0: no override colour would be drawn and presses would be ignored until it expired, and `Sensor.Consistent` would not hold. The handlers are registered as soft (scheduled) IRQs, and those two stores have no branch or blocking call between them, so this interleaving is not expected; the model does not decide it.
- Humidity is a `real`. The floating-point rounding of the driver's value is not modelled; humidity is only ever compared against thresholds.
- The infinite `while True` loop is not modelled. One iteration is `Controller.Step`, and finite runs of interleaved events are `Run`.
