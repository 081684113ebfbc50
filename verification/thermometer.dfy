/**
 * The thermometer: when a new sample is due, how the raw sensor register is
 * scaled to degrees, and how the next sample is scheduled.
 *
 * The sensor read itself (trigger TASKS_START, wait for the data-ready flag,
 * trigger TASKS_STOP) is hardware; the value it reads from the 32-bit register
 * is the input `raw`. The current tick count is the input `ticks`.
 */
module Thermometer {
  import opened Base

  /** The constants the thermometer uses that are defined outside the modelled file. */
  datatype Config = Config(defaultPeriod: int, evtUpdate: int)

  datatype Thermometer = Thermometer(id: int, samplePeriod: int, sampleTime: int, temperature: int)

  /** A thermometer after an operation, the events it raised, and the temperature it returned. */
  datatype Reading = Reading(thermometer: Thermometer, events: seq<Event>, value: int)

  const TWO_TO_31: int := 0x8000_0000
  const TWO_TO_32: int := 0x1_0000_0000

  /**
   * The constructor: the default period, and a sample due from tick 0.
   * `temperature` is not set by the constructor; the thermometer lives
   * inside a statically allocated object, so it starts at zero.
   */
  function NewThermometer(c: Config, id: int): (t: Thermometer)
    ensures t.id == id && t.samplePeriod == c.defaultPeriod
    ensures forall ticks :: ticks >= 0 ==> IsSampleNeeded(t, ticks)
  {
    Thermometer(id, c.defaultPeriod, 0, 0)
  }

  /** `isSampleNeeded`: the scheduled sample time has been reached. */
  predicate IsSampleNeeded(t: Thermometer, ticks: int)
  {
    ticks >= t.sampleTime
  }

  /** `isIdleCallbackNeeded`: processor time is wanted exactly when a sample is due. */
  predicate IsIdleCallbackNeeded(t: Thermometer, ticks: int)
  {
    IsSampleNeeded(t, ticks)
  }

  /** An unsigned 32-bit register value read into a signed 32-bit variable. */
  function ToInt32(u: int): (v: int)
    requires 0 <= u < TWO_TO_32
    ensures -TWO_TO_31 <= v < TWO_TO_31
    ensures v % TWO_TO_32 == u
  {
    if u < TWO_TO_31 then u else u - TWO_TO_32
  }

  /** Euclidean division of a non-negative number brackets it between consecutive multiples. */
  lemma FloorBounds(a: int, d: int)
    requires a >= 0 && d > 0
    ensures a / d >= 0 && 0 <= (a / d) * d <= a < (a / d) * d + d
  {
    var q := a / d;
    assert a == q * d + a % d;
  }

  /** Division that truncates toward zero, as the C `/` operator does on signed integers. */
  function TruncDiv(a: int, d: int): (q: int)
    requires d > 0
    ensures a >= 0 ==> 0 <= q * d <= a < q * d + d
    ensures a < 0 ==> q * d - d < a <= q * d <= 0
  {
    if a >= 0 then
      FloorBounds(a, d);
      a / d
    else
      FloorBounds(-a, d);
      var m := (-a) / d;
      assert (-m) * d == -(m * d);
      -m
  }

  /**
   * `updateTemperature`: read the sensor, record a quarter of the reading
   * (truncated toward zero), schedule the next sample one period from now
   * and raise one update event.
   */
  function UpdateTemperature(c: Config, t: Thermometer, ticks: int, raw: int): (r: Reading)
    requires 0 <= raw < TWO_TO_32
    ensures r.thermometer.temperature == TruncDiv(ToInt32(raw), 4) == r.value
    ensures r.thermometer.sampleTime == ticks + t.samplePeriod
    ensures r.thermometer.id == t.id && r.thermometer.samplePeriod == t.samplePeriod
    ensures r.events == [Event(t.id, c.evtUpdate)]
  {
    var temperature := TruncDiv(ToInt32(raw), 4);
    Reading(t.(temperature := temperature, sampleTime := ticks + t.samplePeriod),
            [Event(t.id, c.evtUpdate)], temperature)
  }

  /** `getTemperature`: sample if one is due, then return the recorded temperature. */
  function GetTemperature(c: Config, t: Thermometer, ticks: int, raw: int): (r: Reading)
    requires 0 <= raw < TWO_TO_32
    ensures IsSampleNeeded(t, ticks) ==> r == UpdateTemperature(c, t, ticks, raw)
    ensures !IsSampleNeeded(t, ticks) ==> r == Reading(t, [], t.temperature)
    ensures r.value == r.thermometer.temperature
  {
    var t1 := if IsSampleNeeded(t, ticks) then UpdateTemperature(c, t, ticks, raw) else Reading(t, [], 0);
    t1.(value := t1.thermometer.temperature)
  }

  /** `idleTick`: sample if one is due. The returned value is the recorded temperature, which `idleTick` itself discards. */
  function IdleTick(c: Config, t: Thermometer, ticks: int, raw: int): (r: Reading)
    requires 0 <= raw < TWO_TO_32
    ensures IsSampleNeeded(t, ticks) ==> r == UpdateTemperature(c, t, ticks, raw)
    ensures !IsSampleNeeded(t, ticks) ==> r.thermometer == t && r.events == []
  {
    if IsSampleNeeded(t, ticks) then UpdateTemperature(c, t, ticks, raw) else Reading(t, [], t.temperature)
  }

  /** `setPeriod`: any value is stored as given, and nothing else changes. */
  function SetPeriod(t: Thermometer, period: int): (r: Thermometer)
    ensures r.id == t.id && r.sampleTime == t.sampleTime && r.temperature == t.temperature
  {
    t.(samplePeriod := period)
  }

  /** `getPeriod`. */
  function GetPeriod(t: Thermometer): int
  {
    t.samplePeriod
  }
}
