/** The button-override and debounce state machine of class `HumiditySensor`
    (HumiditySensor.py). The tick value `now` that the source reads from
    `time.ticks_ms()` is a parameter of every operation; the RGB LED is the
    triple of duties last written, with a ghost log of every write. */
module Sensor {
  import opened Wrappers
  import opened Ticks
  import opened Colors

  /** Minimum time between two accepted edges of the same button, in ms. */
  const DEBOUNCE_TIME: int := 200
  /** How long a button override lasts, in ms. */
  const INTERRUPT_DURATION: int := 2000

  /** Encoding of `interrupt_color`. */
  const NO_OVERRIDE: int := 0
  const CYAN_OVERRIDE: int := 1
  const PINK_OVERRIDE: int := 2

  datatype Button = Left | Right

  /** The five fields of a `HumiditySensor` that the handlers and the expiry check share. */
  datatype SensorState = SensorState(
    interruptActive: bool,
    interruptStartTime: Tick,
    interruptColor: int,
    lastLeftInterrupt: Tick,
    lastRightInterrupt: Tick)

  /** The state `__init__` sets up. */
  const INITIAL: SensorState := SensorState(false, 0, NO_OVERRIDE, 0, 0)

  /** An override is active exactly when it names a colour, and the colour code is
      one of the three encodings. */
  predicate Consistent(s: SensorState)
  {
    && NO_OVERRIDE <= s.interruptColor <= PINK_OVERRIDE
    && (s.interruptActive <==> s.interruptColor != NO_OVERRIDE)
  }

  /** Active flag, start time and colour agree: the override is the same. */
  predicate SameOverride(s: SensorState, t: SensorState)
  {
    && s.interruptActive == t.interruptActive
    && s.interruptStartTime == t.interruptStartTime
    && s.interruptColor == t.interruptColor
  }

  function Other(b: Button): Button
  {
    match b
    case Left => Right
    case Right => Left
  }

  /** When `b` last had an edge accepted. */
  function LastAccepted(s: SensorState, b: Button): Tick
  {
    match b
    case Left => s.lastLeftInterrupt
    case Right => s.lastRightInterrupt
  }

  /** The left button selects pink, the right one cyan. */
  function OverrideCode(b: Button): int
  {
    match b
    case Left => PINK_OVERRIDE
    case Right => CYAN_OVERRIDE
  }

  /** An edge of `b` at `now` gets past the debounce test. */
  predicate Accepts(s: SensorState, b: Button, now: Tick)
  {
    TicksDiff(now, LastAccepted(s, b)) >= DEBOUNCE_TIME
  }

  /** The effect of a falling edge of button `b` at tick `now`
      (`left_switch_handler`, `right_switch_handler`). */
  function Edge(s: SensorState, b: Button, now: Tick): (t: SensorState)
    // a bounce inside the debounce window changes nothing
    ensures !Accepts(s, b, now) ==> t == s
    // an accepted edge restarts its own button's window and leaves the other's alone
    ensures Accepts(s, b, now) ==> LastAccepted(t, b) == now
    ensures LastAccepted(t, Other(b)) == LastAccepted(s, Other(b))
    // first press wins: an active override is neither replaced nor extended
    ensures s.interruptActive ==> SameOverride(s, t)
    // an accepted edge while idle starts this button's override now
    ensures Accepts(s, b, now) && !s.interruptActive ==>
      t.interruptActive && t.interruptStartTime == now && t.interruptColor == OverrideCode(b)
    ensures Consistent(s) ==> Consistent(t)
  {
    if TicksDiff(now, LastAccepted(s, b)) < DEBOUNCE_TIME then s
    else
      var stamped := match b
        case Left => s.(lastLeftInterrupt := now)
        case Right => s.(lastRightInterrupt := now);
      if !s.interruptActive then
        stamped.(interruptActive := true, interruptStartTime := now, interruptColor := OverrideCode(b))
      else stamped
  }

  /** The colour `check_and_handle_interrupt` writes to the LED, if any. */
  function OverrideColor(s: SensorState): (c: Option<Color>)
    ensures c == Some(CYAN) <==> s.interruptActive && s.interruptColor == CYAN_OVERRIDE
    ensures c == Some(PINK) <==> s.interruptActive && s.interruptColor == PINK_OVERRIDE
    ensures Consistent(s) ==> (c.Some? <==> s.interruptActive)
    ensures s.interruptColor != CYAN_OVERRIDE && s.interruptColor != PINK_OVERRIDE ==> c.None?
  {
    if !s.interruptActive then None
    else if s.interruptColor == CYAN_OVERRIDE then Some(CYAN)
    else if s.interruptColor == PINK_OVERRIDE then Some(PINK)
    else None
  }

  /** The state after `check_and_handle_interrupt` at tick `now`. */
  function Poll(s: SensorState, now: Tick): (t: SensorState)
    // the debounce stamps are never touched
    ensures t.lastLeftInterrupt == s.lastLeftInterrupt && t.lastRightInterrupt == s.lastRightInterrupt
    // the override survives exactly until 2000 ms have elapsed since it started
    ensures t.interruptActive <==> s.interruptActive && TicksDiff(now, s.interruptStartTime) < INTERRUPT_DURATION
    // an override still running, and an idle state, are left as they are
    ensures t.interruptActive || !s.interruptActive ==> t == s
    // the start time is kept, and an ended override has its colour cleared
    ensures t.interruptStartTime == s.interruptStartTime
    ensures s.interruptActive && !t.interruptActive ==> t.interruptColor == NO_OVERRIDE
    ensures Consistent(s) ==> Consistent(t)
  {
    if s.interruptActive && TicksDiff(now, s.interruptStartTime) >= INTERRUPT_DURATION then
      s.(interruptActive := false, interruptColor := NO_OVERRIDE)
    else s
  }

  /** The LED writes an optional colour stands for. */
  function Writes(c: Option<Color>): seq<Color>
  {
    match c
    case None => []
    case Some(x) => [x]
  }

  /** The colour the LED shows after the writes in `log`; the module sets every
      channel to 0 before any write. */
  function Shown(log: seq<Color>): Color
  {
    if log == [] then OFF else log[|log| - 1]
  }

  /** The handlers are registered only after the two-second pause of `__init__`, so a
      button's first edge (while its stamp is still the initial 0) comes at a tick of
      2000 or more; if that is before the counter reaches half a period, the edge is
      accepted, and it starts that button's override unless one is already running. */
  lemma FirstEdgeAfterSetupAccepted(s: SensorState, b: Button, now: Tick)
    requires LastAccepted(s, b) == 0
    requires 2000 <= now < TICKS_HALF
    ensures Accepts(s, b, now) && LastAccepted(Edge(s, b, now), b) == now
    ensures !s.interruptActive ==> var t := Edge(s, b, now);
      t.interruptActive && t.interruptStartTime == now && t.interruptColor == OverrideCode(b)
  {
  }

  /** A button that has never been pressed keeps the stamp 0 it started with; once the
      counter wraps (after about 12.4 days), an edge within the first 200 ms of the new
      cycle is discarded as a bounce of that phantom press. */
  lemma NeverPressedStampAfterWrap(s: SensorState, b: Button, now: Tick)
    requires LastAccepted(s, b) == 0
    requires now < DEBOUNCE_TIME
    ensures Edge(s, b, now) == s
  {
  }

  /** Once a button has been idle for half a tick period or more (counted modulo the
      period), `ticks_diff` reads the interval as negative and its edges are discarded
      until the counter comes round again. */
  lemma LongIdleButtonIgnored(s: SensorState, b: Button, now: Tick)
    requires (now - LastAccepted(s, b)) % TICKS_PERIOD >= TICKS_HALF
    ensures Edge(s, b, now) == s
  {
    LongIntervalReadsNegative(now, LastAccepted(s, b));
  }

  /** Edges of one button at 0, 50, 150 and 250 ms, the last accepted one 1000 ms
      before the counter wrapped to 0: the edges at 0 and 250 are accepted, the two
      in between are bounces. */
  lemma DebounceAcrossWrap(s: SensorState)
    requires s.lastLeftInterrupt == TICKS_PERIOD - 1000
    ensures Accepts(s, Left, 0)
    ensures var s1 := Edge(s, Left, 0);
      && !Accepts(s1, Left, 50) && Edge(s1, Left, 50) == s1
      && !Accepts(s1, Left, 150) && Edge(s1, Left, 150) == s1
      && Accepts(s1, Left, 250) && Edge(s1, Left, 250).lastLeftInterrupt == 250
  {
    ElapsedAcrossWrap(TICKS_PERIOD - 1000, 1000);
  }

  /** Activation at 1000 ms: the checks at 2999 and 3000 both report the override,
      the one at 3000 ends it, and the check at 3001 reports nothing. */
  lemma ExpiryTimeline()
    ensures var s := Edge(INITIAL, Left, 1000);
      && OverrideColor(s) == Some(PINK)
      && Poll(s, 2999) == s
      && Poll(s, 3000).interruptActive == false
      && OverrideColor(Poll(s, 3000)) == None
      && Poll(Poll(s, 3000), 3001) == Poll(s, 3000)
  {
  }

  /** A `HumiditySensor` object: the override and debounce fields, and the RGB LED. */
  class HumiditySensor {
    var interruptActive: bool
    var interruptStartTime: Tick
    var interruptColor: int
    var lastLeftInterrupt: Tick
    var lastRightInterrupt: Tick
    /** Duties last written to the red, green and blue PWM channels. */
    var led: Color
    /** Every colour written to the LED, oldest first. */
    ghost var ledLog: seq<Color>

    function State(): SensorState
      reads this
    {
      SensorState(interruptActive, interruptStartTime, interruptColor, lastLeftInterrupt, lastRightInterrupt)
    }

    ghost predicate Valid()
      reads this
    {
      Consistent(State()) && led == Shown(ledLog)
    }

    constructor ()
      ensures State() == INITIAL && led == OFF && ledLog == [] && Valid()
    {
      interruptActive := false;
      interruptStartTime := 0;
      interruptColor := NO_OVERRIDE;
      lastLeftInterrupt := 0;
      lastRightInterrupt := 0;
      led := OFF;
      ledLog := [];
    }

    method SetColorToRgbLed(c: Color)
      modifies this`led, this`ledLog
      ensures led == c && ledLog == old(ledLog) + [c]
      ensures Valid() <==> Consistent(State())
    {
      led := c;
      ledLog := ledLog + [c];
    }

    method UpdateLedColorBasedOnHumidity(h: real)
      modifies this`led, this`ledLog
      ensures led == BandColor(h) && ledLog == old(ledLog) + [BandColor(h)]
      ensures old(Valid()) ==> Valid()
    {
      SetColorToRgbLed(BandColor(h));
    }

    method LeftSwitchHandler(now: Tick)
      modifies this`lastLeftInterrupt, this`interruptActive, this`interruptStartTime, this`interruptColor
      ensures State() == Edge(old(State()), Left, now)
      ensures old(Valid()) ==> Valid()
    {
      if TicksDiff(now, lastLeftInterrupt) < DEBOUNCE_TIME {
        return;
      }
      lastLeftInterrupt := now;
      if !interruptActive {
        interruptActive := true;
        interruptStartTime := now;
        interruptColor := PINK_OVERRIDE;
      }
    }

    method RightSwitchHandler(now: Tick)
      modifies this`lastRightInterrupt, this`interruptActive, this`interruptStartTime, this`interruptColor
      ensures State() == Edge(old(State()), Right, now)
      ensures old(Valid()) ==> Valid()
    {
      if TicksDiff(now, lastRightInterrupt) < DEBOUNCE_TIME {
        return;
      }
      lastRightInterrupt := now;
      if !interruptActive {
        interruptActive := true;
        interruptStartTime := now;
        interruptColor := CYAN_OVERRIDE;
      }
    }

    method CheckAndHandleInterrupt(now: Tick)
      modifies this`interruptActive, this`interruptColor, this`led, this`ledLog
      ensures State() == Poll(old(State()), now)
      ensures ledLog == old(ledLog) + Writes(OverrideColor(old(State())))
      ensures led == match OverrideColor(old(State())) case Some(c) => c case None => old(led)
      ensures old(Valid()) ==> Valid()
    {
      if interruptActive {
        if interruptColor == CYAN_OVERRIDE {
          SetColorToRgbLed(CYAN);
        } else if interruptColor == PINK_OVERRIDE {
          SetColorToRgbLed(PINK);
        }
        if TicksDiff(now, interruptStartTime) >= INTERRUPT_DURATION {
          interruptActive := false;
          interruptColor := NO_OVERRIDE;
        }
      }
    }
  }
}
