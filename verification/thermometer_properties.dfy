/** Properties of the thermometer's sampling schedule and scaling. */
module ThermometerProperties {
  import opened Base
  import opened Thermometer

  /** A new thermometer samples on its first query, at any non-negative tick. */
  lemma FirstQuerySamples(c: Config, id: int, ticks: int, raw: int)
    requires ticks >= 0 && 0 <= raw < TWO_TO_32
    ensures var r := GetTemperature(c, NewThermometer(c, id), ticks, raw);
      r.events == [Event(id, c.evtUpdate)] && r.value == TruncDiv(ToInt32(raw), 4)
  {
  }

  /** The idle callback is wanted at a tick exactly when a sample is due then. */
  lemma IdleCallbackIffSampleNeeded(t: Thermometer, ticks: int)
    ensures IsIdleCallbackNeeded(t, ticks) <==> ticks >= t.sampleTime
  {
  }

  /** Once a sample is due it stays due at every later tick until one is taken. */
  lemma SampleStaysDue(t: Thermometer, ticks: int, later: int)
    requires IsSampleNeeded(t, ticks) && later >= ticks
    ensures IsSampleNeeded(t, later) && IsIdleCallbackNeeded(t, later)
  {
  }

  /**
   * After a sample at tick `now`, with a positive period, no sample is due
   * before tick `now + period`, and one is due from then on.
   */
  lemma NoSampleBeforePeriod(c: Config, t: Thermometer, now: int, raw: int, later: int)
    requires 0 <= raw < TWO_TO_32 && t.samplePeriod > 0
    ensures var u := UpdateTemperature(c, t, now, raw).thermometer;
      && (now <= later < now + t.samplePeriod ==> !IsSampleNeeded(u, later))
      && (later >= now + t.samplePeriod ==> IsSampleNeeded(u, later))
  {
  }

  /**
   * Two `getTemperature` calls that both raise an update event are at least
   * one period apart: the second, within the period, returns the cached
   * value and changes nothing.
   */
  lemma UpdatesAtLeastAPeriodApart(c: Config, t: Thermometer, t1: int, t2: int, raw1: int, raw2: int)
    requires 0 <= raw1 < TWO_TO_32 && 0 <= raw2 < TWO_TO_32 && t1 <= t2
    requires GetTemperature(c, t, t1, raw1).events != []
    ensures var r1 := GetTemperature(c, t, t1, raw1);
      var r2 := GetTemperature(c, r1.thermometer, t2, raw2);
      && (r2.events != [] <==> t2 >= t1 + t.samplePeriod)
      && (r2.events == [] ==> r2.thermometer == r1.thermometer && r2.value == r1.value)
  {
  }

  /** Scaling truncates toward zero: a raw reading of -1 (register 0xFFFFFFFF) gives 0, not the floor -1. */
  lemma ScalingTruncatesTowardZero()
    ensures ToInt32(0xFFFF_FFFF) == -1
    ensures TruncDiv(-1, 4) == 0 && -1 / 4 == -1
    ensures TruncDiv(-7, 4) == -1 && -7 / 4 == -2
    ensures TruncDiv(7, 4) == 1
  {
  }

  /** Truncated division is symmetric about zero: negating the reading negates the temperature. */
  lemma {:induction false} TruncDivOdd(a: int, d: int)
    requires d > 0
    ensures TruncDiv(-a, d) == -TruncDiv(a, d)
  {
  }

  /** The recorded temperature is a quarter of the signed reading, rounded toward zero, and so lies in [-2^29, 2^29). */
  lemma TemperatureInRange(c: Config, t: Thermometer, ticks: int, raw: int)
    requires 0 <= raw < TWO_TO_32
    ensures var v := UpdateTemperature(c, t, ticks, raw).value;
      -0x2000_0000 <= v < 0x2000_0000
      && (raw < TWO_TO_31 ==> v == raw / 4)
  {
    var a := ToInt32(raw);
    var q := TruncDiv(a, 4);
    if a < 0 {
      assert q * 4 - 4 < a;
    }
  }

  /** `setPeriod(p)` followed by `getPeriod()` gives p back, for every int p. */
  lemma PeriodRoundTrip(t: Thermometer, p: int)
    ensures GetPeriod(SetPeriod(t, p)) == p
  {
  }

  /** A changed period applies from the next sample on: the sample already scheduled keeps its time. */
  lemma SetPeriodKeepsSchedule(c: Config, t: Thermometer, p: int, now: int, raw: int)
    requires 0 <= raw < TWO_TO_32
    ensures IsSampleNeeded(SetPeriod(t, p), now) == IsSampleNeeded(t, now)
    ensures UpdateTemperature(c, SetPeriod(t, p), now, raw).thermometer.sampleTime == now + p
  {
  }
}
