/**
 * Properties of the button over sequences of periodic ticks: how many HOLD
 * events a press can raise, a complete click, the window that never closes
 * when it opens at tick zero, and what `isPressed` reports.
 */
module ButtonProperties {
  import opened Base
  import opened Button

  /** One periodic tick: the pin level read and the tick count at that moment. */
  datatype Sample = Sample(high: bool, ticks: int)

  /** `tick` called once per sample, as written. */
  function Run(c: Config, b: Button, samples: seq<Sample>): Outcome
    requires ValidConfig(c)
    decreases |samples|
  {
    if |samples| == 0 then Outcome(b, [])
    else
      var o := Tick(c, b, samples[0].high, samples[0].ticks);
      var rest := Run(c, o.button, samples[1..]);
      Outcome(rest.button, o.events + rest.events)
  }

  /**
   * HOLD is raised at most once per debounced state change: over any run,
   * the number of HOLD events is at most the number of DOWN and UP events,
   * plus one if HOLD had not yet been raised at the start.
   */
  lemma {:induction false} HoldAtMostOncePerChange(c: Config, b: Button, samples: seq<Sample>)
    requires ValidConfig(c)
    ensures var o := Run(c, b, samples);
      CountValue(o.events, EVT_HOLD) + Credit(o.button)
        <= Credit(b) + CountValue(o.events, EVT_DOWN) + CountValue(o.events, EVT_UP)
    decreases |samples|
  {
    if |samples| > 0 {
      var o := Tick(c, b, samples[0].high, samples[0].ticks);
      var rest := Run(c, o.button, samples[1..]);
      HoldAtMostOncePerChange(c, o.button, samples[1..]);
      CountValueAppend(o.events, rest.events, EVT_HOLD);
      CountValueAppend(o.events, rest.events, EVT_DOWN);
      CountValueAppend(o.events, rest.events, EVT_UP);
    }
  }

  /** Between two state changes there is at most one HOLD, and none once it has been raised. */
  lemma HoldOnceWithoutChange(c: Config, b: Button, samples: seq<Sample>)
    requires ValidConfig(c)
    requires var o := Run(c, b, samples);
      CountValue(o.events, EVT_DOWN) == 0 && CountValue(o.events, EVT_UP) == 0
    ensures CountValue(Run(c, b, samples).events, EVT_HOLD) <= 1
    ensures HoldTriggered(b) ==> CountValue(Run(c, b, samples).events, EVT_HOLD) == 0
  {
    HoldAtMostOncePerChange(c, b, samples);
  }

  /** Two samples in a row. */
  lemma RunPair(c: Config, b: Button, x: Sample, y: Sample)
    requires ValidConfig(c)
    ensures var o1 := Tick(c, b, x.high, x.ticks);
      var o2 := Tick(c, o1.button, y.high, y.ticks);
      Run(c, b, [x, y]) == Outcome(o2.button, o1.events + o2.events)
  {
    var o1 := Tick(c, b, x.high, x.ticks);
    var o2 := Tick(c, o1.button, y.high, y.ticks);
    assert [x, y][1..] == [y] && [y][1..] == [];
    assert Run(c, o1.button, [y]) == Outcome(o2.button, o2.events + []);
    assert o2.events + [] == o2.events;
  }

  /**
   * A clean click, press half: from a new button, the pin goes low at t0
   * and is still low once the debounce period has passed, at t1. Nothing is
   * raised at t0 and DOWN at t1; the button ends pressed, settled, with the
   * press starting at t1.
   */
  lemma CleanPress(c: Config, id: int, t0: int, t1: int)
    requires ValidConfig(c) && c.debouncePeriod >= 0
    requires 0 < t0 && t0 + c.debouncePeriod < t1
    ensures Run(c, NewButton(id), [Sample(false, t0), Sample(false, t1)])
      == Outcome(Button(id, STATE, 0, t1), [Event(id, EVT_DOWN)])
  {
    RunPair(c, NewButton(id), Sample(false, t0), Sample(false, t1));
  }

  /**
   * A clean click, release half: from the state the press half ends in, the
   * pin goes high at t2 and is still high once the period has passed, at
   * t3, quicker than the hold and long-click thresholds. Nothing is raised
   * at t2, UP then CLICK at t3, and the button ends released and settled.
   */
  lemma CleanRelease(c: Config, id: int, t1: int, t2: int, t3: int)
    requires ValidConfig(c) && c.debouncePeriod >= 0
    requires 0 < t1 <= t2 && t2 + c.debouncePeriod < t3
    requires t3 - t1 < c.debounceHold && t3 - t1 < c.debounceLong
    ensures Run(c, Button(id, STATE, 0, t1), [Sample(true, t2), Sample(true, t3)])
      == Outcome(Button(id, 0, 0, t1), [Event(id, EVT_UP), Event(id, EVT_CLICK)])
  {
    RunPair(c, Button(id, STATE, 0, t1), Sample(true, t2), Sample(true, t3));
  }

  /**
   * As written, a window whose start time is zero never closes: whatever
   * the pin does afterwards there is no DOWN or UP, the debounced state
   * never changes, and if it was released nothing is raised at all.
   */
  lemma {:induction false} WindowAtZeroNeverCloses(c: Config, b: Button, samples: seq<Sample>)
    requires ValidConfig(c) && WindowOpen(c, b) && b.eventStartTime == 0
    ensures var o := Run(c, b, samples);
      && WindowOpen(c, o.button) && o.button.eventStartTime == 0
      && Pressed(o.button) == Pressed(b)
      && CountValue(o.events, EVT_DOWN) == 0 && CountValue(o.events, EVT_UP) == 0
      && (!Pressed(b) ==> o.events == [])
    decreases |samples|
  {
    if |samples| > 0 {
      var o := Tick(c, b, samples[0].high, samples[0].ticks);
      var rest := Run(c, o.button, samples[1..]);
      WindowAtZeroNeverCloses(c, o.button, samples[1..]);
      CountValueAppend(o.events, rest.events, EVT_DOWN);
      CountValueAppend(o.events, rest.events, EVT_UP);
    }
  }

  /**
   * The input that shows it: a press seen at tick 0 by a new button opens a
   * window at time 0, and then no press or release, however long, raises
   * any event or makes the button read as pressed.
   */
  lemma PressAtTickZeroIgnored(c: Config, id: int, samples: seq<Sample>)
    requires ValidConfig(c) && c.debouncePeriod >= 0
    ensures var o1 := Tick(c, NewButton(id), false, 0);
      var o := Run(c, o1.button, samples);
      o1.events == [] && o.events == [] && !Pressed(o.button)
  {
    var o1 := Tick(c, NewButton(id), false, 0);
    WindowAtZeroNeverCloses(c, o1.button, samples);
  }

  /** `tick` called once per sample, with the window closed by its flag. */
  function RunFixed(c: Config, b: Button, samples: seq<Sample>): Outcome
    requires ValidConfig(c)
    decreases |samples|
  {
    if |samples| == 0 then Outcome(b, [])
    else
      var o := TickFixed(c, b, samples[0].high, samples[0].ticks);
      var rest := RunFixed(c, o.button, samples[1..]);
      Outcome(rest.button, o.events + rest.events)
  }

  /** With the window closed by its flag, the same press at tick 0 is reported once the period has passed. */
  lemma PressAtTickZeroFixed(c: Config, id: int, t: int)
    requires ValidConfig(c) && c.debouncePeriod >= 0 && t > c.debouncePeriod
    ensures var o1 := TickFixed(c, NewButton(id), false, 0);
      var o2 := TickFixed(c, o1.button, false, t);
      o1.events == [] && o2.events == [Event(id, EVT_DOWN)] && Pressed(o2.button)
  {
  }

  /** A button whose window flag and non-zero start time agree: the state the written code relies on. */
  predicate Settled(c: Config, b: Button)
  {
    WindowOpen(c, b) <==> b.eventStartTime != 0
  }

  /**
   * The written and the corrected `tick` agree, and keep the flag and the
   * start time in agreement, on every tick but tick 0: the flaw needs a
   * window opened at time 0.
   */
  lemma TickFixedAgrees(c: Config, b: Button, high: bool, ticks: int)
    requires ValidConfig(c) && Settled(c, b) && ticks != 0
    ensures TickFixed(c, b, high, ticks) == Tick(c, b, high, ticks)
    ensures Settled(c, Tick(c, b, high, ticks).button)
  {
  }

  /** Over a run that never ticks at 0, from a settled button, the written and corrected ticks agree throughout. */
  lemma {:induction false} RunFixedAgrees(c: Config, b: Button, samples: seq<Sample>)
    requires ValidConfig(c) && Settled(c, b)
    requires forall i :: 0 <= i < |samples| ==> samples[i].ticks != 0
    ensures RunFixed(c, b, samples) == Run(c, b, samples)
    decreases |samples|
  {
    if |samples| > 0 {
      TickFixedAgrees(c, b, samples[0].high, samples[0].ticks);
      RunFixedAgrees(c, Tick(c, b, samples[0].high, samples[0].ticks).button, samples[1..]);
    }
  }

  /**
   * `isPressed` as written reports a button as pressed as soon as a press
   * window opens, before any DOWN: here it is non-zero while the debounced
   * state, and the documented answer, is released.
   */
  lemma IsPressedBeforeDebounce(c: Config, id: int, t: int)
    requires ValidConfig(c) && c.debouncePeriod >= 0 && t != 0
    ensures var o := Tick(c, NewButton(id), false, t);
      o.events == [] && !Pressed(o.button)
      && IsPressed(o.button) != 0 && IsPressedDebounced(o.button) == 0
  {
  }

  /** After HOLD, `isPressed` as written returns 3 rather than the documented 1. */
  lemma IsPressedAfterHold(c: Config, b: Button, ticks: int)
    requires ValidConfig(c)
    requires b.status == STATE && b.eventStartTime == 0 && ticks - b.downStartTime >= c.debounceHold
    ensures var o := Tick(c, b, false, ticks);
      o.events == [Event(b.id, EVT_HOLD)] && IsPressed(o.button) == 3 && IsPressedDebounced(o.button) == 1
  {
  }

  /** When no flag is set the written and documented `isPressed` agree, as they do right after every state change. */
  lemma IsPressedAgreesWhenNoFlags(c: Config, b: Button, high: bool, ticks: int)
    requires ValidConfig(c)
    ensures b.status & !STATE == 0 ==> IsPressed(b) == IsPressedDebounced(b)
    ensures var o := Complete(c, b, high, ticks); IsPressed(o.button) == IsPressedDebounced(o.button)
  {
  }
}
