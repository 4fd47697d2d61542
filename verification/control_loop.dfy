/** One iteration of the `while True` loop of main.py, the pure model of the whole
    system under an interleaving of button edges and loop iterations, and the
    `Controller` that owns the sensor object and the buzzer. */
module ControlLoop {
  import opened Wrappers
  import opened Ticks
  import opened Colors
  import opened Sensor

  /** Humidity (in %) from which the buzzer sounds. */
  const HUMIDITY_THRESHOLD: real := 80.0
  const BUZZER_ON_DUTY: int := 512
  const BUZZER_OFF_DUTY: int := 0

  /** A successful `read_humidity()`: humidity in % and temperature in degrees C. */
  datatype Reading = Reading(humidity: real, temperature: real)

  /** The buzzer duty written for humidity `h`: on at or above the threshold. */
  function BuzzerDuty(h: real): (d: int)
    ensures d == BUZZER_ON_DUTY <==> h >= HUMIDITY_THRESHOLD
    ensures d == BUZZER_OFF_DUTY <==> h < HUMIDITY_THRESHOLD
  {
    if h >= HUMIDITY_THRESHOLD then BUZZER_ON_DUTY else BUZZER_OFF_DUTY
  }

  /** Everything the loop and the handlers can change: the sensor object's fields,
      the LED (with the log of its writes) and the buzzer duty. */
  datatype SystemState = SystemState(sensor: SensorState, led: Color, ledLog: seq<Color>, buzzerDuty: int)

  /** The state main.py starts its loop in. */
  const BOOT: SystemState := SystemState(INITIAL, OFF, [], BUZZER_OFF_DUTY)

  /** The override fields are consistent and the LED shows the last colour written. */
  predicate Healthy(sys: SystemState)
  {
    Consistent(sys.sensor) && sys.led == Shown(sys.ledLog)
  }

  /** One pass through the loop body at tick `now`, given what `read_humidity()`
      returned: nothing happens on a failed read; otherwise the band colour is
      written, then the override check may overwrite it, then the buzzer is set. */
  function Iterate(sys: SystemState, reading: Option<Reading>, now: Tick): (r: SystemState)
    ensures reading.None? ==> r == sys
    ensures reading.Some? ==> r.sensor == Poll(sys.sensor, now)
    ensures reading.Some? ==>
      r.ledLog == sys.ledLog + [BandColor(reading.value.humidity)] + Writes(OverrideColor(sys.sensor))
    ensures reading.Some? && Consistent(sys.sensor) ==>
      r.led == if sys.sensor.interruptActive then OverrideColor(sys.sensor).value
               else BandColor(reading.value.humidity)
    ensures reading.Some? ==> r.buzzerDuty == BuzzerDuty(reading.value.humidity)
    ensures Healthy(sys) ==> Healthy(r)
  {
    match reading
    case None => sys
    case Some(rd) =>
      var band := BandColor(rd.humidity);
      var log := sys.ledLog + [band] + Writes(OverrideColor(sys.sensor));
      SystemState(Poll(sys.sensor, now), Shown(log), log, BuzzerDuty(rd.humidity))
  }

  /** What can happen next: an interrupt handler runs to completion, or the main
      loop runs one iteration. */
  datatype Event =
    | LeftEdge(at: Tick)
    | RightEdge(at: Tick)
    | Iteration(reading: Option<Reading>, at: Tick)

  function Apply(sys: SystemState, e: Event): SystemState
  {
    match e
    case LeftEdge(now) => sys.(sensor := Edge(sys.sensor, Left, now))
    case RightEdge(now) => sys.(sensor := Edge(sys.sensor, Right, now))
    case Iteration(reading, now) => Iterate(sys, reading, now)
  }

  /** The state after the events of `evs`, in order. */
  function Run(sys: SystemState, evs: seq<Event>): SystemState
    decreases |evs|
  {
    if evs == [] then sys else Run(Apply(sys, evs[0]), evs[1..])
  }

  /** An iteration whose sensor read succeeded: the only event that checks expiry. */
  predicate SuccessfulRead(e: Event)
  {
    e.Iteration? && e.reading.Some?
  }

  /** The override fields stay consistent and the LED keeps showing its last write,
      whatever the interleaving of handlers and loop iterations. */
  lemma {:induction false} RunStaysHealthy(sys: SystemState, evs: seq<Event>)
    requires Healthy(sys)
    ensures Healthy(Run(sys, evs))
    decreases |evs|
  {
    if evs != [] {
      RunStaysHealthy(Apply(sys, evs[0]), evs[1..]);
    }
  }

  /** A run of failed reads changes nothing at all: no LED write, no buzzer change,
      and an active override is not cleared. */
  lemma {:induction false} FailedReadsChangeNothing(sys: SystemState, evs: seq<Event>)
    requires forall i :: 0 <= i < |evs| ==> evs[i].Iteration? && evs[i].reading.None?
    ensures Run(sys, evs) == sys
    decreases |evs|
  {
    if evs != [] {
      FailedReadsChangeNothing(Apply(sys, evs[0]), evs[1..]);
    }
  }

  /** First press wins, across any interleaving: while no read succeeds, button edges
      and failed reads leave an active override exactly as it is, and touch neither
      the LED nor the buzzer. */
  lemma {:induction false} OverrideHeldWithoutSuccessfulRead(sys: SystemState, evs: seq<Event>)
    requires sys.sensor.interruptActive
    requires forall i :: 0 <= i < |evs| ==> !SuccessfulRead(evs[i])
    ensures SameOverride(sys.sensor, Run(sys, evs).sensor)
    ensures Run(sys, evs).ledLog == sys.ledLog && Run(sys, evs).buzzerDuty == sys.buzzerDuty
    decreases |evs|
  {
    if evs != [] {
      var next := Apply(sys, evs[0]);
      assert SameOverride(sys.sensor, next.sensor);
      OverrideHeldWithoutSuccessfulRead(next, evs[1..]);
    }
  }

  /** An override is never cut short: if one active at the start is gone after a
      run, some successful read in that run came at least 2000 ms (by `ticks_diff`)
      after the override started. */
  lemma {:induction false} OverrideEndsOnlyAfterDuration(sys: SystemState, evs: seq<Event>)
    requires sys.sensor.interruptActive
    requires !Run(sys, evs).sensor.interruptActive
    ensures exists i ::
      && 0 <= i < |evs|
      && SuccessfulRead(evs[i])
      && TicksDiff(evs[i].at, sys.sensor.interruptStartTime) >= INTERRUPT_DURATION
    decreases |evs|
  {
    if evs == [] {
      assert false;
    } else {
      var next := Apply(sys, evs[0]);
      if SuccessfulRead(evs[0]) && TicksDiff(evs[0].at, sys.sensor.interruptStartTime) >= INTERRUPT_DURATION {
        assert 0 < |evs|;
      } else {
        assert SameOverride(sys.sensor, next.sensor);
        OverrideEndsOnlyAfterDuration(next, evs[1..]);
        var i :| 0 <= i < |evs| - 1 && SuccessfulRead(evs[1..][i])
          && TicksDiff(evs[1..][i].at, next.sensor.interruptStartTime) >= INTERRUPT_DURATION;
        assert evs[i + 1] == evs[1..][i];
      }
    }
  }

  /** A left press at 1000 ms and a right press 10 ms later: the LED shows pink (never
      cyan) at the reads at 2000 and 3000 ms, the read at 3000 ms ends the override,
      and the read at 5000 ms shows the band colour again. The humidity of 85 % keeps
      the buzzer on throughout. */
  lemma FirstPressWinsScenario()
    ensures var r := Reading(85.0, 20.0);
      var s1 := Run(BOOT, [LeftEdge(1000), RightEdge(1010), Iteration(Some(r), 2000)]);
      var s2 := Apply(s1, Iteration(Some(r), 3000));
      var s3 := Apply(s2, Iteration(Some(r), 5000));
      && s1.led == PINK && s1.sensor.interruptActive && s1.buzzerDuty == BUZZER_ON_DUTY
      && s2.led == PINK && !s2.sensor.interruptActive
      && s3.led == RED && s3.buzzerDuty == BUZZER_ON_DUTY
  {
    var r := Reading(85.0, 20.0);
    var e1 := Edge(INITIAL, Left, 1000);
    assert e1.interruptColor == PINK_OVERRIDE && e1.interruptStartTime == 1000;
    var e2 := Edge(e1, Right, 1010);
    assert SameOverride(e1, e2);
    var evs := [LeftEdge(1000), RightEdge(1010), Iteration(Some(r), 2000)];
    assert Run(BOOT, evs) == Run(BOOT.(sensor := e1), evs[1..]);
    assert Run(BOOT.(sensor := e1), evs[1..]) == Run(BOOT.(sensor := e2), evs[2..]);
    assert Run(BOOT.(sensor := e2), evs[2..]) == Iterate(BOOT.(sensor := e2), Some(r), 2000);
  }

  /** The objects main.py sets up: the sensor and the buzzer PWM channel. */
  class Controller {
    const sensor: HumiditySensor
    var buzzerDuty: int

    ghost function Snapshot(): SystemState
      reads this, sensor
    {
      SystemState(sensor.State(), sensor.led, sensor.ledLog, buzzerDuty)
    }

    constructor ()
      ensures fresh(sensor) && Snapshot() == BOOT && Healthy(Snapshot())
    {
      sensor := new HumiditySensor();
      buzzerDuty := BUZZER_OFF_DUTY;
    }

    /** The body of main.py's `while True` loop, given the result of `read_humidity()`
        and the tick at which `check_and_handle_interrupt` reads the clock. */
    method Step(reading: Option<Reading>, now: Tick)
      modifies this, sensor
      ensures Snapshot() == Iterate(old(Snapshot()), reading, now)
    {
      match reading {
        case None =>
        case Some(rd) =>
          sensor.UpdateLedColorBasedOnHumidity(rd.humidity);
          sensor.CheckAndHandleInterrupt(now);
          if rd.humidity >= HUMIDITY_THRESHOLD {
            buzzerDuty := BUZZER_ON_DUTY;
          } else {
            buzzerDuty := BUZZER_OFF_DUTY;
          }
      }
    }
  }
}
