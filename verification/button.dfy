/**
 * A push button: the periodic debounce and hold detection, and the events
 * it raises.
 *
 * The pin reads high when the button is released and low when it is
 * pressed. `status` keeps the debounced state in bit 0, the hold flag in
 * bit 1, and the "debounce window open" flag in the bit the configuration
 * names. Raising an event is recorded as appending it to the events a step
 * returns.
 */
module Button {
  import opened Base

  const EVT_DOWN: int := 1
  const EVT_UP: int := 2
  const EVT_CLICK: int := 3
  const EVT_LONG_CLICK: int := 4
  const EVT_HOLD: int := 5

  const STATE: bv32 := 1
  const STATE_HOLD_TRIGGERED: bv32 := 2

  /**
   * The constants the debounce logic uses but that are defined outside the
   * modelled files: the window flag, the debounce period, and the long-click
   * and hold thresholds, all in ticks.
   */
  datatype Config = Config(stateSet: bv32, debouncePeriod: int, debounceLong: int, debounceHold: int)

  /** The window flag is a bit of its own, apart from the state and hold bits. */
  predicate ValidConfig(c: Config)
  {
    c.stateSet != 0 && c.stateSet & (STATE | STATE_HOLD_TRIGGERED) == 0
  }

  datatype Button = Button(id: int, status: bv32, eventStartTime: int, downStartTime: int)

  /** A button after a step, and the events the step raised in order. */
  datatype Outcome = Outcome(button: Button, events: seq<Event>)

  /** The debounced state is "pressed". */
  predicate Pressed(b: Button)
  {
    b.status & STATE != 0
  }

  /** HOLD has been raised since the debounced state last changed. */
  predicate HoldTriggered(b: Button)
  {
    b.status & STATE_HOLD_TRIGGERED != 0
  }

  /** A debounce window is open. */
  predicate WindowOpen(c: Config, b: Button)
  {
    b.status & c.stateSet != 0
  }

  /** The value a pin read gives: 1 when high (released), 0 when low (pressed). */
  function PinValue(high: bool): bv32
  {
    if high then 1 else 0
  }

  /**
   * The constructor: no window, no press start. `status` is not set by the
   * constructor; the button objects live inside a statically allocated
   * object, so it starts at zero.
   */
  function NewButton(id: int): (b: Button)
    ensures b.id == id && !Pressed(b) && !HoldTriggered(b)
    ensures forall c: Config :: !WindowOpen(c, b)
    ensures b.eventStartTime == 0
  {
    Button(id, 0, 0, 0)
  }

  /** `debounceDown`: raise DOWN and remember when the press started. */
  function DebounceDown(b: Button, ticks: int): (o: Outcome)
    ensures o.events == [Event(b.id, EVT_DOWN)]
    ensures o.button.downStartTime == ticks
    ensures o.button.status == b.status && o.button.eventStartTime == b.eventStartTime && o.button.id == b.id
  {
    Outcome(b.(downStartTime := ticks), [Event(b.id, EVT_DOWN)])
  }

  /** `debounceUp`: raise UP, then LONG_CLICK when the press lasted the long-click threshold, else CLICK. */
  function DebounceUp(c: Config, b: Button, ticks: int): (o: Outcome)
    ensures o.button == b
    ensures |o.events| == 2 && o.events[0] == Event(b.id, EVT_UP)
    ensures o.events[1] == Event(b.id, EVT_LONG_CLICK) || o.events[1] == Event(b.id, EVT_CLICK)
    ensures o.events[1].value == EVT_LONG_CLICK <==> ticks - b.downStartTime >= c.debounceLong
  {
    if ticks - b.downStartTime >= c.debounceLong then
      Outcome(b, [Event(b.id, EVT_UP), Event(b.id, EVT_LONG_CLICK)])
    else
      Outcome(b, [Event(b.id, EVT_UP), Event(b.id, EVT_CLICK)])
  }

  /**
   * First part of `tick`: when the pin disagrees with the debounced state
   * and no window is open, open one at the current tick. The state and hold
   * bits are untouched, and an open window is never restarted.
   */
  function DebounceStart(c: Config, b: Button, high: bool, ticks: int): (r: Button)
    requires ValidConfig(c)
    ensures Pressed(b) == high && !WindowOpen(c, b) ==> WindowOpen(c, r) && r.eventStartTime == ticks
    ensures !(Pressed(b) == high && !WindowOpen(c, b)) ==> r == b
    ensures Pressed(r) == Pressed(b) && HoldTriggered(r) == HoldTriggered(b)
    ensures r.id == b.id && r.downStartTime == b.downStartTime
  {
    // the state bit equals the pin value exactly when they disagree, as the pin is high when released
    PinAgrees(b.status, high);
    var disagrees := b.status & STATE == PinValue(high);
    assert disagrees == (Pressed(b) == high);
    if disagrees && !WindowOpen(c, b) then
      b.(status := SetFlag(b.status, c.stateSet), eventStartTime := ticks)
    else
      b
  }

  /** The state bit equals the pin value exactly when the debounced state is "pressed" while the pin is high. */
  lemma PinAgrees(s: bv32, high: bool)
    ensures (s & STATE == PinValue(high)) == ((s & STATE != 0) == high)
  {
  }

  /** `s | flag`, for a flag apart from the state and hold bits: it sets the flag and leaves those bits alone. */
  function SetFlag(s: bv32, flag: bv32): (t: bv32)
    requires flag != 0 && flag & (STATE | STATE_HOLD_TRIGGERED) == 0
    ensures t & flag != 0
    ensures t & STATE == s & STATE
    ensures t & STATE_HOLD_TRIGGERED == s & STATE_HOLD_TRIGGERED
  {
    s | flag
  }

  /**
   * Second part of `tick`: while the debounced state is pressed and HOLD has
   * not been raised, raise HOLD once the press has lasted the hold threshold.
   */
  function HoldCheck(c: Config, b: Button, ticks: int): (o: Outcome)
    requires ValidConfig(c)
    ensures o.events == [] || o.events == [Event(b.id, EVT_HOLD)]
    ensures o.events != [] <==>
      Pressed(b) && !HoldTriggered(b) && ticks - b.downStartTime >= c.debounceHold
    ensures o.events != [] ==> HoldTriggered(o.button)
    ensures o.events == [] ==> o.button == b
    ensures Pressed(o.button) == Pressed(b) && WindowOpen(c, o.button) == WindowOpen(c, b)
    ensures o.button.id == b.id && o.button.eventStartTime == b.eventStartTime
    ensures o.button.downStartTime == b.downStartTime
    ensures CountValue(o.events, EVT_HOLD) == |o.events|
    ensures CountValue(o.events, EVT_DOWN) == 0 && CountValue(o.events, EVT_UP) == 0
  {
    if b.status & STATE != 0 && b.status & STATE_HOLD_TRIGGERED == 0
       && ticks - b.downStartTime >= c.debounceHold then
      Outcome(b.(status := b.status | STATE_HOLD_TRIGGERED), [Event(b.id, EVT_HOLD)])
    else
      Outcome(b, [])
  }

  /**
   * Third part of `tick`, as written: a window is closed when its start
   * time is non-zero and more than the debounce period has passed. The new
   * status is exactly the negated pin (pressed iff low), which clears the
   * hold and window flags; DOWN or UP plus a click follow.
   */
  function DebounceFinish(c: Config, b: Button, high: bool, ticks: int): (o: Outcome)
    requires ValidConfig(c)
    ensures o.events != [] <==> b.eventStartTime != 0 && ticks > b.eventStartTime + c.debouncePeriod
    ensures o.events == [] ==> o.button == b
    ensures o.events != [] ==> Completed(c, b, high, ticks, o)
    ensures CountValue(o.events, EVT_HOLD) == 0
    ensures CountValue(o.events, EVT_DOWN) + CountValue(o.events, EVT_UP) == (if o.events != [] then 1 else 0)
  {
    if b.eventStartTime != 0 && ticks > b.eventStartTime + c.debouncePeriod then
      Complete(c, b, high, ticks)
    else
      Outcome(b, [])
  }

  /** What closing a window does, whatever decides that it closes. */
  predicate Completed(c: Config, b: Button, high: bool, ticks: int, o: Outcome)
  {
    && o.button.eventStartTime == 0
    && o.button.status == PinValue(!high)
    && (Pressed(o.button) <==> !high)
    && !HoldTriggered(o.button) && !WindowOpen(c, o.button)
    && o.button.id == b.id
    && (!high ==> o.events == [Event(b.id, EVT_DOWN)] && o.button.downStartTime == ticks)
    && (high ==> o.button.downStartTime == b.downStartTime
                 && |o.events| == 2 && o.events[0] == Event(b.id, EVT_UP)
                 && (o.events[1] == Event(b.id, EVT_LONG_CLICK) || o.events[1] == Event(b.id, EVT_CLICK))
                 && (o.events[1].value == EVT_LONG_CLICK <==> ticks - b.downStartTime >= c.debounceLong))
  }

  /** Close the window: status becomes the negated pin, then `debounceDown` or `debounceUp`. */
  function Complete(c: Config, b: Button, high: bool, ticks: int): (o: Outcome)
    requires ValidConfig(c)
    ensures Completed(c, b, high, ticks, o)
    ensures CountValue(o.events, EVT_HOLD) == 0
    ensures CountValue(o.events, EVT_DOWN) + CountValue(o.events, EVT_UP) == 1
  {
    var b1 := b.(eventStartTime := 0, status := PinValue(!high));
    var o := if !high then DebounceDown(b1, ticks) else DebounceUp(c, b1, ticks);
    CountValueShort(o.events, EVT_HOLD);
    CountValueShort(o.events, EVT_DOWN);
    CountValueShort(o.events, EVT_UP);
    o
  }

  /** `tick` as written: start, hold check and finish, in that order, on the pin read once. */
  function Tick(c: Config, b: Button, high: bool, ticks: int): (o: Outcome)
    requires ValidConfig(c)
    ensures o.button.id == b.id
    ensures CountValue(o.events, EVT_HOLD) <= 1
    ensures CountValue(o.events, EVT_HOLD) == 1 ==> Pressed(b)
    ensures CountValue(o.events, EVT_HOLD) + Credit(o.button)
         <= Credit(b) + CountValue(o.events, EVT_DOWN) + CountValue(o.events, EVT_UP)
    ensures CountValue(o.events, EVT_DOWN) + CountValue(o.events, EVT_UP) <= 1
    ensures WindowOpen(c, b) && b.eventStartTime == 0 ==>
      && WindowOpen(c, o.button) && o.button.eventStartTime == 0
      && Pressed(o.button) == Pressed(b)
      && CountValue(o.events, EVT_DOWN) == 0 && CountValue(o.events, EVT_UP) == 0
      && (!Pressed(b) ==> o.events == [])
    ensures WindowOpen(c, b) && b.eventStartTime != 0 && ticks > b.eventStartTime + c.debouncePeriod ==>
      && CountValue(o.events, EVT_DOWN) + CountValue(o.events, EVT_UP) == 1
      && !WindowOpen(c, o.button) && (Pressed(o.button) <==> !high)
    ensures c.debouncePeriod >= 0 && Pressed(b) == high && !WindowOpen(c, b) ==>
      WindowOpen(c, o.button) && o.button.eventStartTime == ticks
  {
    var b1 := DebounceStart(c, b, high, ticks);
    var h := HoldCheck(c, b1, ticks);
    var f := DebounceFinish(c, h.button, high, ticks);
    CountValueAppend(h.events, f.events, EVT_HOLD);
    CountValueAppend(h.events, f.events, EVT_DOWN);
    CountValueAppend(h.events, f.events, EVT_UP);
    Outcome(f.button, h.events + f.events)
  }

  /** One when HOLD may still be raised before the next state change, zero once it has been. */
  function Credit(b: Button): nat
  {
    if HoldTriggered(b) then 0 else 1
  }

  /** `isPressed` as written: the whole status word, flags included. */
  function IsPressed(b: Button): (r: bv32)
    ensures Pressed(b) ==> r != 0
    ensures r & STATE == (if Pressed(b) then 1 else 0)
  {
    b.status
  }

  /** `isPressed` as documented: 1 when the debounced state is pressed, 0 otherwise. */
  function IsPressedDebounced(b: Button): (r: bv32)
    ensures r == 0 || r == 1
    ensures r == 1 <==> Pressed(b)
  {
    b.status & STATE
  }

  /** Closing the window as intended: a window is open exactly when its flag is set, whatever tick it opened at. */
  function DebounceFinishFixed(c: Config, b: Button, high: bool, ticks: int): (o: Outcome)
    requires ValidConfig(c)
    ensures o.events != [] <==> WindowOpen(c, b) && ticks > b.eventStartTime + c.debouncePeriod
    ensures o.events == [] ==> o.button == b
    ensures o.events != [] ==> Completed(c, b, high, ticks, o)
    ensures CountValue(o.events, EVT_HOLD) == 0
    ensures CountValue(o.events, EVT_DOWN) + CountValue(o.events, EVT_UP) == (if o.events != [] then 1 else 0)
  {
    if b.status & c.stateSet != 0 && ticks > b.eventStartTime + c.debouncePeriod then
      Complete(c, b, high, ticks)
    else
      Outcome(b, [])
  }

  /** `tick` with the window closed by its flag. */
  function TickFixed(c: Config, b: Button, high: bool, ticks: int): (o: Outcome)
    requires ValidConfig(c)
    ensures o.button.id == b.id
    ensures CountValue(o.events, EVT_HOLD) <= 1
    ensures WindowOpen(c, b) && ticks > b.eventStartTime + c.debouncePeriod ==>
      CountValue(o.events, EVT_DOWN) + CountValue(o.events, EVT_UP) == 1
      && !WindowOpen(c, o.button) && (Pressed(o.button) <==> !high)
  {
    var b1 := DebounceStart(c, b, high, ticks);
    var h := HoldCheck(c, b1, ticks);
    var f := DebounceFinishFixed(c, h.button, high, ticks);
    CountValueAppend(h.events, f.events, EVT_HOLD);
    CountValueAppend(h.events, f.events, EVT_DOWN);
    CountValueAppend(h.events, f.events, EVT_UP);
    Outcome(f.button, h.events + f.events)
  }
}
