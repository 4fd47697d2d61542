/** The indicator light's palette and the humidity-to-colour band table of
    HumiditySensor.py. A colour is the triple of PWM duties written to the red,
    green and blue channels. */
module Colors {
  datatype Color = Color(r: int, g: int, b: int)

  /** Largest duty a PWM channel accepts. */
  const MAX_DUTY: int := 1023

  const OFF: Color := Color(0, 0, 0)
  const WHITE: Color := Color(1023, 1023, 1023)
  const BLUE: Color := Color(0, 0, 1023)
  const GREEN: Color := Color(0, 1023, 0)
  const YELLOW: Color := Color(1023, 1023, 0)
  const ORANGE: Color := Color(1023, 600, 0)
  const RED: Color := Color(1023, 0, 0)
  const PURPLE: Color := Color(600, 0, 600)
  const CYAN: Color := Color(0, 1023, 1023)
  const PINK: Color := Color(1023, 0, 1023)

  const PALETTE: seq<Color> := [OFF, WHITE, BLUE, GREEN, YELLOW, ORANGE, RED, PURPLE, CYAN, PINK]

  predicate InDutyRange(c: Color)
  {
    0 <= c.r <= MAX_DUTY && 0 <= c.g <= MAX_DUTY && 0 <= c.b <= MAX_DUTY
  }

  /** Every named colour can be written to the PWM channels as it stands. */
  lemma PaletteInDutyRange()
    ensures forall i :: 0 <= i < |PALETTE| ==> InDutyRange(PALETTE[i])
  {
  }

  /** The band table: band i covers [BAND_BOUNDS[i-1], BAND_BOUNDS[i]), the first band
      has no lower bound and the last no upper bound. */
  const BAND_BOUNDS: seq<real> := [30.0, 40.0, 50.0, 60.0, 70.0, 80.0, 90.0]
  const BAND_COLORS: seq<Color> := [OFF, WHITE, BLUE, GREEN, YELLOW, ORANGE, RED, PURPLE]

  /** Humidity `h` lies in band `i` of the table. */
  predicate InBand(h: real, i: nat)
  {
    && i < |BAND_COLORS|
    && (i == 0 || BAND_BOUNDS[i - 1] <= h)
    && (i == |BAND_BOUNDS| || h < BAND_BOUNDS[i])
  }

  /** The first band, at or after band `k`, whose upper bound lies above `h`. */
  function BandFrom(h: real, k: nat): (i: nat)
    requires k <= |BAND_BOUNDS|
    requires forall j :: 0 <= j < k ==> BAND_BOUNDS[j] <= h
    ensures k <= i <= |BAND_BOUNDS|
    ensures forall j :: 0 <= j < i ==> BAND_BOUNDS[j] <= h
    ensures i < |BAND_BOUNDS| ==> h < BAND_BOUNDS[i]
    decreases |BAND_BOUNDS| - k
  {
    if k == |BAND_BOUNDS| || h < BAND_BOUNDS[k] then k else BandFrom(h, k + 1)
  }

  /** The band humidity `h` falls in, found by walking the table in ascending order. */
  function BandIndex(h: real): (i: nat)
    ensures InBand(h, i)
  {
    BandFrom(h, 0)
  }

  /** The bands are disjoint: a humidity lies in exactly one of them. */
  lemma BandIndexUnique(h: real, i: nat)
    requires InBand(h, i)
    ensures i == BandIndex(h)
  {
  }

  /** `update_led_color_based_on_humidity`'s choice of colour: the if/elif chain over
      the thresholds, each an exclusive upper bound. */
  function BandColor(h: real): (c: Color)
    ensures c in BAND_COLORS && InDutyRange(c)
  {
    if h < 30.0 then OFF
    else if h < 40.0 then WHITE
    else if h < 50.0 then BLUE
    else if h < 60.0 then GREEN
    else if h < 70.0 then YELLOW
    else if h < 80.0 then ORANGE
    else if h < 90.0 then RED
    else PURPLE
  }

  /** The if/elif chain agrees with the table: it shows the colour of the one band the
      humidity lies in, and no other table entry (the band colours are distinct). */
  lemma BandColorIsTableEntry(h: real, i: nat)
    requires i < |BAND_COLORS|
    ensures BandColor(h) == BAND_COLORS[i] <==> InBand(h, i)
  {
    var k := BandIndex(h);
    assert BandColor(h) == BAND_COLORS[k];
    if InBand(h, i) {
      BandIndexUnique(h, i);
    }
  }

  /** The boundaries behave as exclusive upper bounds. */
  lemma BandBoundaries()
    ensures BandColor(29.9) == OFF && BandColor(30.0) == WHITE
    ensures BandColor(79.9) == ORANGE && BandColor(80.0) == RED
    ensures BandColor(89.9) == RED && BandColor(90.0) == PURPLE
  {
  }
}
