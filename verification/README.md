# microbit-dal core, modelled in Dafny

This project models five pieces of sequential logic from the micro:bit device abstraction layer and proves properties of them:

- **The message bus.** `listen` keeps a singly linked list of `(id, value, handler)` listeners and bumps a sequence number. `send` finds the run of listeners for the event's source, optionally through a caller-held `(ptr, seq)` cache. It spawns one fiber per matching handler, then one per listener in the leading run of ANY-source listeners.
- **The LED display.** This covers:
  - the rotation map and the column-bit pattern of one `strobeUpdate`
  - the tick-driven animation state machine (`animationUpdate`, the print-text, scroll-text and scroll-image steps, `resetAnimation` and the three starters)
  - the `setBrightness` and `rotateTo` guards
- **The push button.** The periodic `tick` debounces the pin and detects a hold. It raises DOWN, UP, CLICK, LONG_CLICK and HOLD events. `isPressed` reports the status.
- **The thermometer.** When a sample is due, how the 32-bit register reading becomes degrees, and when the next sample is scheduled.
- **The firmware-update (DFU) pairing helpers.**
  - The device name `getName` derives from the device id's digits.
  - The histogram `showNameHistogram` draws from the same digits.
  - The flag machine of `onDataWritten`, `releaseFlashCode` and the disconnect rule of `pair`.

Every operation is a pure function over immutable datatypes, or a method with loop invariants. Each returns the new state together with what it emits:

- Raising an event appends an `Event(source, value)` to a returned sequence.
- `create_fiber(cb)` appends `cb` to the returned `spawned` sequence.
- `image.print(c)` appends `c` to the returned `drawn` sequence.

Several constants are used by these files but defined outside them. The model takes them as parameters:

- the bus wildcard ids (`Wildcards`)
- the scroll `SPACING` and the fiber tick period
- the button's `STATE_SET` flag and debounce thresholds (`Button.Config`, whose flag must be a bit apart from the state and hold bits)
- the thermometer's default period and update-event code
- the DFU histogram width and height (at most 5, the codebook size) and the DFU opcodes (two distinct values)
- the display's `matrixMap` and pixel reader

The display geometry, three rows and nine columns, is the one the header selects for the defined board.

Files:

- `base.dfy`: `Option`, `Event` and counting events by value.
- `message_bus.dfy` and `bus_properties.dfy`
- `display.dfy` and `display_properties.dfy`
- `button.dfy` and `button_properties.dfy`
- `thermometer.dfy` and `thermometer_properties.dfy`
- `dfu_service.dfy` and `dfu_properties.dfy`

Modelling decisions:

- **Listener list.** The list is a `seq<Listener>` read from the head. A cache pointer is a position in it, and any position at or past the end stands for NULL.
- **Send leaves the bus alone.** `Send` returns no bus, so it cannot change the list or the sequence number.
- **Handlers.** A handler is an `int`, its address, compared only for equality.
- **Fields the constructors leave unset.** The button's `status` and the thermometer's `temperature` start at zero, because those objects live inside a statically allocated object.
- **ANY-source listeners.** The wildcard loop (MicroBitMessageBus.cpp:86-92) applies no value test, unlike the source loop at MicroBitMessageBus.cpp:76-83. So an ANY-source listener with a value filter still receives every event, and the model follows the code.
- **Thermometer event.** The constructor's comment lists a CHANGED event, but `updateTemperature` raises `MICROBIT_THERMOMETER_EVT_UPDATE`. The model raises the update event, as the code does.

## Model

| member | source | states |
|---|---|---|
| MessageBus.IdRun | MicroBitMessageBus.cpp:123-131 | The duplicate scan visits exactly the leading run of listeners whose id is at most the new id, and stops at the first larger id. |
| MessageBus.InsertPoint | MicroBitMessageBus.cpp:137-144 | The insertion scan stops after the longest prefix whose listeners all have id <= id and value <= value, at the first listener that fails either test. |
| MessageBus.Splice | MicroBitMessageBus.cpp:150-153 | Linking a listener in after position k keeps every other listener in its relative order and adds exactly that one listener (as a multiset). |
| MessageBus.Listen | MicroBitMessageBus.cpp:116-158 | If a listener in the scanned run already covers the registration (same handler, same or ANY id, same or ANY value), the bus is unchanged. Otherwise the sequence number goes up by one and the new listener sits at the insertion point, with all others in order. When the insertion point is the head, the list becomes the new listener alone. Afterwards the registration is always covered. |
| MessageBus.ListenLinked | MicroBitMessageBus.cpp:146-153 | Corrected head case: the new listener is linked in front, so a registration adds exactly one listener and keeps all the others. |
| MessageBus.LexPoint | MicroBitMessageBus.cpp:133-135 | The position the ordering comment describes: after every listener ordered at or before the new one in (id, value) order. |
| MessageBus.ListenSorted | MicroBitMessageBus.cpp:133-157 | Listen as the ordering comment describes it. It has the same skip and sequence-number behaviour, keeps every listener, and keeps a sorted list sorted. |
| MessageBus.SortedSplice | MicroBitMessageBus.cpp:133-135 | Linking a listener in at its lexicographic position keeps a sorted list sorted. |
| MessageBus.HeadScan | MicroBitMessageBus.cpp:66-71 | The head scan stops at the first listener whose id is the event's source, or at NULL when there is none. |
| MessageBus.SourceWalk | MicroBitMessageBus.cpp:76-83 | The source loop spawns, in list order, exactly the listeners of the leading same-source run whose value is ANY or the event's value. |
| MessageBus.AnyWalk | MicroBitMessageBus.cpp:86-92 | The wildcard loop spawns every listener of the leading ANY-source run, in order, with no value test. |
| MessageBus.Spawned | MicroBitMessageBus.cpp:73-92 | The handlers spawned from a start position are the matches of the same-source run found there (ANY value or the event's value), in list order, followed by the callbacks of the whole leading ANY-source run. |
| MessageBus.Send | MicroBitMessageBus.cpp:55-100 | A stale cache is refreshed to the head-scan position and the current sequence number. A current cache, or none, is left as it was. The spawned handlers are the matches of the same-source run at the cached or scanned start position, followed by the callbacks of the whole leading ANY-source run. |
| BusProperties.FirstListen | MicroBitMessageBus.cpp:26-30 | The first registration on a new bus gives exactly that listener at sequence number 1. |
| BusProperties.ListenIdempotent | MicroBitMessageBus.cpp:121-131 | Registering the same (id, value, handler) twice is the same as registering it once. |
| BusProperties.SpliceSortedIff | MicroBitMessageBus.cpp:137-153 | On a sorted list, splicing at the as-written insertion point gives a sorted list exactly when every listener with a smaller id has a value no larger than the new one. |
| BusProperties.ListenSortedIff | MicroBitMessageBus.cpp:133-153 | As-written listen with a non-empty insertion prefix keeps a sorted list sorted if and only if no listener with a smaller id has a larger value. |
| BusProperties.ListenLinkedSortedIff | MicroBitMessageBus.cpp:133-153 | With the head case corrected, the same condition decides the order, whatever the insertion point. |
| BusProperties.TwoListenersInOrder | MicroBitMessageBus.cpp:116-158 | Registering (1,1) and then (1,10) on a new bus gives those two listeners in that order. |
| BusProperties.ThirdListenerBetween | MicroBitMessageBus.cpp:140-153 | On that list, registering (2,5) links it in between the two id-1 listeners. |
| BusProperties.ListenOrderCounterexample | MicroBitMessageBus.cpp:134-144 | Registering (1,1), (1,10), (2,5) gives [(1,1),(2,5),(1,10)], which is not in (id, value) order. |
| BusProperties.MisorderedDispatchCounterexample | MicroBitMessageBus.cpp:66-83 | On that list, an event (1,10) reaches no handler, although (1,10) is registered: the source loop stops at (2,5). |
| BusProperties.HeadInsertDropsListener | MicroBitMessageBus.cpp:147-148 | Registering (5,7,A) and then (5,ANY,B) leaves only B, and an event (5,7) reaches only B. |
| BusProperties.HeadInsertLosesAll | MicroBitMessageBus.cpp:147-148 | Whenever the insertion point is the head, every listener registered before is gone. |
| BusProperties.ListenLinkedKeepsAll | MicroBitMessageBus.cpp:150-153 | With the head case corrected, no registration ever loses a listener. |
| BusProperties.ListenSortedKeepsShape | MicroBitMessageBus.cpp:133-157 | One corrected registration keeps the list sorted and ANY-first, with one sequence-number step per listener. |
| BusProperties.RegisterAllSorted | MicroBitMessageBus.cpp:133-157 | Any sequence of corrected registrations keeps the list sorted and ANY-first, with a sequence number equal to the number of listeners. |
| BusProperties.SourceLoopComplete | MicroBitMessageBus.cpp:66-83 | On a sorted list, the head scan followed by the source loop spawns every listener registered for the source whose value filter admits the value, in list order. |
| BusProperties.AnyLoopComplete | MicroBitMessageBus.cpp:86-92 | On a sorted, ANY-first list the wildcard loop spawns every ANY-source listener. |
| BusProperties.SendMatchesIntent | MicroBitMessageBus.cpp:38-100 | On a sorted, ANY-first list, `send(evt)` spawns exactly the matching source listeners and then every ANY-source listener, in list order. |
| BusProperties.CorrectedRegistryDispatch | MicroBitMessageBus.cpp:55-157 | For every registry built by corrected registrations from a new bus, `send` dispatches exactly the intended handlers. |
| BusProperties.AnySourceDispatchedTwice | MicroBitMessageBus.cpp:76-92 | An event whose source is the ANY id walks the leading ANY run twice: first filtered by value, then unfiltered. |
| BusProperties.ZeroCacheSound | MicroBitMessageBus.cpp:26-30 | A zero-filled cache is sound on a new bus. |
| BusProperties.CachedSendAgrees | MicroBitMessageBus.cpp:38-71 | Sending with a sound cache spawns exactly what sending without a cache spawns. |
| BusProperties.SendKeepsCacheSound | MicroBitMessageBus.cpp:94-99 | After a send, the caller's cache is current and points at the head-scan position for the event's source. |
| BusProperties.ListenKeepsCacheSound | MicroBitMessageBus.cpp:155-157 | A registration leaves every sound cache sound, as written or corrected. |
| BusProperties.StaleAfterListen | MicroBitMessageBus.cpp:155-157 | A registration that changes the list makes every cache taken before it stale, so the next send rescans from the head. |
| Display.Narrow | inc/MicroBitDisplay.h:168-171 | Storing an `int` into the `int16_t` position or `int8_t` stride field gives the congruent value in the field's signed range, and an in-range value unchanged. |
| Display.SetBrightness | MicroBitDisplay.cpp:437-447 | Brightness changes to b exactly when 0 <= b <= 255; otherwise nothing changes. |
| Display.Rotate | MicroBitDisplay.cpp:79-95 | A rotation other than 90, 180 or 270 leaves the point in place. A 180 rotation, or any rotation on a square display, keeps a point of the display on the display. |
| Display.RotateTo | MicroBitDisplay.cpp:472-489 | Rotation changes exactly for positions 0..3; every other value is ignored. |
| Display.OrColumn | MicroBitDisplay.cpp:97-98 | Setting column bit i when the pixel is lit sets exactly that bit and keeps the number below 2^(i+1). |
| Display.ColumnData | MicroBitDisplay.cpp:72-99 | Column bit i is set iff the rotated pixel for `matrixMap[i][row]` is non-zero, and no bit at or above COLUMN_COUNT is set. |
| Display.StrobeUpdate | MicroBitDisplay.cpp:63-110 | The row advances modulo ROW_COUNT and stays in range. The column bits are exactly the lit rotated pixels of that row. The animation update runs on the advanced display. |
| Display.UpdateScrollText | MicroBitDisplay.cpp:159-178 | The position advances by one. At a cell boundary the next character, or a blank past the end, is printed and the position returns to 0. The scroll then stops with one SCROLLTEXT_COMPLETE event exactly when the index is past the end; otherwise the index advances by one. Nothing else in the display changes. |
| Display.UpdatePrintText | MicroBitDisplay.cpp:184-196 | Prints the current character, or a blank past the end. It stops with one PRINTTEXT_COMPLETE event exactly when the index is past the end, and otherwise advances the index. |
| Display.UpdateScrollImage | MicroBitDisplay.cpp:202-215 | It stops with one SCROLLIMAGE_COMPLETE event exactly when nothing was pasted after a first frame was rendered. Otherwise the position moves by the stride, narrowed into its `int16_t` field, and the image is marked rendered. |
| Display.AnimationUpdate | MicroBitDisplay.cpp:115-137 | Does nothing with no animation. Otherwise the tick advances by the tick period, and once it reaches the delay it resets to 0 and exactly one mode step runs. |
| Display.Sanitise | MicroBitDisplay.cpp:224-226 | A non-positive delay becomes the default scroll speed; a positive one is kept. |
| Display.ResetAnimation | MicroBitDisplay.cpp:222-236 | Sets mode NONE, the sanitised delay, and the tick one below it; nothing else changes. |
| Display.PrintStringAsync | MicroBitDisplay.cpp:266-278 | Starts print-text mode on s at index 0, with a reset animation timer. Apart from the mode, the delay, the timer and the text state, the display is unchanged. |
| Display.ScrollStringAsync | MicroBitDisplay.cpp:322-335 | Starts scroll-text mode on s at index 0 and position width-1, with a reset animation timer. Apart from the mode, the delay, the timer and the scroll state, the display is unchanged. |
| Display.ScrollImageAsync | MicroBitDisplay.cpp:379-396 | Starts scroll-image mode with the image width recorded, not yet rendered. The direction is chosen on the full `int`: from the right edge for a positive stride, left of the image otherwise. The negated stride is stored narrowed to `int8_t`, exactly -stride for strides in (-128, 128]. The start position is narrowed to `int16_t`, exact for a display width below 2^15 and an image width of at most 2^15. Apart from the mode, the delay, the timer and the image-scroll state, the display is unchanged; the id stays. |
| DisplayProperties.StrideNarrowing | MicroBitDisplay.cpp:382-391 | Strides -128 and 128 are both stored as -128, from opposite start edges; a stride of 200 is stored as 56. |
| DisplayProperties.RotateUnlistedIsIdentity | MicroBitDisplay.cpp:79-95 | Rotation 0, and any value the switch does not list, leaves every pixel in place. |
| DisplayProperties.Rotate180Involution | MicroBitDisplay.cpp:86-89 | The 180 map is its own inverse and keeps points on the display. |
| DisplayProperties.Rotate90And270Inverse | MicroBitDisplay.cpp:81-94 | On a square display, the 90 and 270 maps undo each other and keep points on the display. |
| DisplayProperties.Rotate90And270NotInverseWhenNotSquare | MicroBitDisplay.cpp:81-94 | On a display that is not square, the 270 map never undoes the 90 map. |
| DisplayProperties.BrightnessRoundTrip | MicroBitDisplay.cpp:437-461 | `setBrightness(b)` then `getBrightness()` returns b for every b in 0..255. |
| DisplayProperties.BrightnessStaysInRange | MicroBitDisplay.cpp:437-447 | Brightness stays within 0..255 whatever `setBrightness` is given. |
| DisplayProperties.RotationStaysValid | MicroBitDisplay.cpp:472-489 | Rotation stays in {0,1,2,3} whatever `rotateTo` is given. |
| DisplayProperties.NewDisplayIdle | MicroBitDisplay.cpp:36-55 | A new display has brightness 127, rotation 0 and row 0, and ignores animation updates. |
| DisplayProperties.FirstFrameImmediate | MicroBitDisplay.cpp:121-125 | After any starter, the very next animation update runs the mode step, because the tick starts one below the delay. |
| DisplayProperties.GlyphsWholeText | MicroBitDisplay.cpp:186 | Printing positions 0..len+1 hands `print` the text followed by two blanks. |
| DisplayProperties.PrintRun | MicroBitDisplay.cpp:184-196 | From index c, the animation runs exactly len+2-c more updates. Before the last one it is still printing with no event. After the last it stops with exactly one PRINTTEXT_COMPLETE event, having printed the rest of the text and the blanks in order. |
| DisplayProperties.PrintTextTerminates | MicroBitDisplay.cpp:184-196 | After `printStringAsync(s)`, exactly len(s)+2 updates end the animation with one PRINTTEXT_COMPLETE event, after printing s and two blanks. Before that, no event is sent and the index is at most len(s)+1. |
| DisplayProperties.ScrollRemainingPositive | MicroBitDisplay.cpp:162-176 | A scroll in progress has at least one update left, and exactly one on the update that stops it. |
| DisplayProperties.ScrollStep | MicroBitDisplay.cpp:159-178 | Each scroll update short of the last keeps the scroll in progress and takes exactly one off the remaining count. |
| DisplayProperties.ScrollStepDrawn | MicroBitDisplay.cpp:164-176 | Short of the last update, what one update prints, followed by everything still to print, is everything that was still to print before it. |
| DisplayProperties.ScrollRun | MicroBitDisplay.cpp:159-178 | A scroll in progress stops after exactly its remaining count of updates, with one SCROLLTEXT_COMPLETE event, having printed the rest of the text and the blanks. Before that, the position stays within a cell and no event is sent. |
| DisplayProperties.ScrollTextTerminates | MicroBitDisplay.cpp:322-335 | After `scrollStringAsync(s)`, the scroll stops after exactly (spacing+1) + (len(s)+1)(width+spacing) updates with one SCROLLTEXT_COMPLETE event, having printed s and two blanks. Before that, the position stays in [0, width+spacing). |
| Button.NewButton | MicroBitButton.cpp:11-17 | A new button is released, with no hold, no open window and no window start time. |
| Button.DebounceDown | MicroBitButton.cpp:22-29 | Raises exactly one DOWN and records the press start time; nothing else changes. |
| Button.DebounceUp | MicroBitButton.cpp:34-44 | Raises UP and then exactly one more event: LONG_CLICK iff the press lasted at least the long-click threshold, otherwise CLICK. |
| Button.DebounceStart | MicroBitButton.cpp:53-58 | A window opens at the current tick exactly when the pin disagrees with the debounced state and no window is open. An open window is never restarted, and the state and hold bits are untouched. |
| Button.SetFlag | MicroBitButton.cpp:56 | Or-ing in the window flag sets it and keeps the state and hold bits. |
| Button.HoldCheck | MicroBitButton.cpp:60-68 | HOLD is raised exactly when the button is pressed, HOLD is not yet triggered, and the press has lasted the hold threshold. HOLD then sets the hold flag. |
| Button.DebounceFinish | MicroBitButton.cpp:70-85 | A window closes exactly when its start time is non-zero and more than the period has passed. Closing resets the start time and sets the status to exactly the negated pin, which clears the hold and window flags. It then raises DOWN or UP plus a click. |
| Button.Complete | MicroBitButton.cpp:74-84 | Closing a window raises DOWN iff the new status is pressed and UP otherwise: exactly one of the two, and no HOLD. |
| Button.Tick | MicroBitButton.cpp:50-86 | One tick raises at most one HOLD, only when pressed, and at most one state change. HOLD is raised at most once per state change. A window opened at time 0 stays open and changes nothing. A window opened at a non-zero time closes once the period has passed, with exactly one DOWN or UP, leaving the state the pin shows. A pin that disagrees with a settled state opens a window at this tick. |
| Button.IsPressed | MicroBitButton.cpp:92-95 | Returns the whole status word: non-zero whenever pressed, with bit 0 the debounced state. |
| Button.IsPressedDebounced | MicroBitButton.cpp:88-91 | The documented answer: 1 exactly when the debounced state is pressed, otherwise 0. |
| Button.DebounceFinishFixed | MicroBitButton.cpp:72-85 | Corrected close: a window closes exactly when its flag is set and more than the period has passed, whatever tick it opened at. |
| Button.TickFixed | MicroBitButton.cpp:50-86 | With the corrected close, an open window past its period always closes with exactly one DOWN or UP that matches the pin. |
| ButtonProperties.HoldAtMostOncePerChange | MicroBitButton.cpp:61-85 | Over any run of ticks, the HOLD events are at most the DOWN and UP events, plus one if HOLD was not triggered at the start. |
| ButtonProperties.HoldOnceWithoutChange | MicroBitButton.cpp:61-68 | Between state changes there is at most one HOLD, and none once HOLD has been triggered. |
| ButtonProperties.CleanPress | MicroBitButton.cpp:50-86 | From a new button, a low pin at t0 and again after the period gives exactly one DOWN. The button ends pressed and settled, with the press starting then. |
| ButtonProperties.CleanRelease | MicroBitButton.cpp:34-86 | From that state, a high pin held past the period, quicker than the hold and long-click thresholds, gives exactly UP then CLICK, and the button ends released. |
| ButtonProperties.WindowAtZeroNeverCloses | MicroBitButton.cpp:54-85 | A window whose start time is 0 never closes, whatever the pin does: no DOWN or UP is ever raised, and the state never changes. |
| ButtonProperties.PressAtTickZeroIgnored | MicroBitButton.cpp:54-85 | A press first seen at tick 0 by a new button is never reported: no event at all, however long it lasts. |
| ButtonProperties.PressAtTickZeroFixed | MicroBitButton.cpp:72-82 | With the corrected close, the same press is reported as DOWN once the period has passed. |
| ButtonProperties.TickFixedAgrees | MicroBitButton.cpp:50-86 | On every tick other than 0, from a button whose flag and start time agree, the written and corrected ticks agree, and that agreement is kept. |
| ButtonProperties.RunFixedAgrees | MicroBitButton.cpp:50-86 | Over a run that never ticks at 0, the written and corrected ticks produce the same outcome. |
| ButtonProperties.IsPressedBeforeDebounce | MicroBitButton.cpp:92-95 | As written, `isPressed` is non-zero as soon as a press window opens, before any DOWN, while the button is not pressed. |
| ButtonProperties.IsPressedAfterHold | MicroBitButton.cpp:92-95 | After HOLD, `isPressed` as written returns 3, not the documented 1. |
| ButtonProperties.IsPressedAgreesWhenNoFlags | MicroBitButton.cpp:92-95 | With no flag set, as right after every state change, the written and documented `isPressed` agree. |
| Thermometer.NewThermometer | source/MicroBitThermometer.cpp:78-85 | A new thermometer has the default period and a sample due at every non-negative tick. |
| Thermometer.ToInt32 | source/MicroBitThermometer.cpp:172 | The unsigned register read into a signed 32-bit variable gives the same value modulo 2^32, in [-2^31, 2^31). |
| Thermometer.TruncDiv | source/MicroBitThermometer.cpp:177 | C division rounds toward zero: the quotient times the divisor lies between 0 and the dividend, within one divisor of it. |
| Thermometer.UpdateTemperature | source/MicroBitThermometer.cpp:155-184 | Records a quarter of the signed reading, rounded toward zero, and schedules the next sample one period from now. It raises exactly one update event with the component's id. |
| Thermometer.GetTemperature | source/MicroBitThermometer.cpp:96-102 | Samples exactly when a sample is due. Otherwise it returns the recorded temperature and changes nothing. |
| Thermometer.IdleTick | source/MicroBitThermometer.cpp:116-120 | Samples exactly when a sample is due; otherwise nothing changes and no event is raised. |
| Thermometer.SetPeriod | source/MicroBitThermometer.cpp:138-141 | Stores the period as given; id, schedule and temperature are unchanged. |
| ThermometerProperties.FirstQuerySamples | source/MicroBitThermometer.cpp:78-102 | The first query of a new thermometer, at any tick >= 0, samples and raises the update event. |
| ThermometerProperties.IdleCallbackIffSampleNeeded | source/MicroBitThermometer.cpp:108-129 | Idle time is wanted exactly when the tick has reached the scheduled sample time. |
| ThermometerProperties.SampleStaysDue | source/MicroBitThermometer.cpp:126-129 | Once `isSampleNeeded` holds, it and `isIdleCallbackNeeded` hold at every later tick until a sample is taken. |
| ThermometerProperties.NoSampleBeforePeriod | source/MicroBitThermometer.cpp:180 | After a sample at tick t with a positive period, no sample is due before t + period, and one is due from then on. |
| ThermometerProperties.UpdatesAtLeastAPeriodApart | source/MicroBitThermometer.cpp:96-102 | A later query raises another update event iff a full period has passed. Otherwise it returns the cached value and changes nothing. |
| ThermometerProperties.ScalingTruncatesTowardZero | source/MicroBitThermometer.cpp:172-177 | Register 0xFFFFFFFF reads as -1 and scales to 0, not the floor -1; -7 scales to -1 and 7 to 1. |
| ThermometerProperties.TruncDivOdd | source/MicroBitThermometer.cpp:177 | Negating the reading negates the temperature. |
| ThermometerProperties.TemperatureInRange | source/MicroBitThermometer.cpp:172-177 | The recorded temperature lies in [-2^29, 2^29), and equals raw/4 for a reading below 2^31. |
| ThermometerProperties.PeriodRoundTrip | source/MicroBitThermometer.cpp:138-150 | `setPeriod(p)` then `getPeriod()` returns p. |
| ThermometerProperties.SetPeriodKeepsSchedule | source/MicroBitThermometer.cpp:138-141 | A new period does not move the sample already scheduled, and applies from the next sample on. |
| DfuService.DigitStep | MicroBitDFUService.cpp:82 | For n >= 0, every digit `(n % d) / ld` lies in [0, HEIGHT) and is at most n. |
| DfuService.DigitsFrom | MicroBitDFUService.cpp:80-87 | The digit loop yields one digit per iteration, each below HEIGHT, so each indexes its codebook row in bounds. |
| DfuService.Digits | MicroBitDFUService.cpp:70-87 | The seed's digits: WIDTH of them, each in [0, HEIGHT). |
| DfuService.DigitsFromAreBaseDigits | MicroBitDFUService.cpp:82-85 | Subtracting only the digit, not its place value, leaves the high part intact, so the loop yields the textbook base-HEIGHT digits. |
| DfuService.DigitsAreBaseDigits | MicroBitDFUService.cpp:70-87 | The seed's digits are its base-HEIGHT digits, least significant first. |
| DfuService.ComputeDigits | MicroBitDFUService.cpp:70-87 | The C loop, run with its own variables, computes exactly those digits. |
| DfuService.LetterIsCodebook | MicroBitDFUService.cpp:57-64 | Each letter is the codebook entry for its row and digit. |
| DfuService.CodebookRows | MicroBitDFUService.cpp:57-64 | Even codebook rows hold consonants and odd rows hold vowels. |
| DfuService.NameOf | MicroBitDFUService.cpp:80-87 | The name has WIDTH letters, with digit i's letter at position WIDTH-1-i. |
| DfuService.GetName | MicroBitDFUService.cpp:55-90 | Writes exactly `name[0..WIDTH)` with that name, touches nothing past it, and returns WIDTH. |
| DfuService.NameAlternates | MicroBitDFUService.cpp:57-64 | The name alternates consonant and vowel by position and ends in a consonant, whatever the digits. |
| DfuService.DrawBar | MicroBitDFUService.cpp:273-274 | The inner loop lights exactly column x from the bottom row up through h+1 rows, all on the display. |
| DfuService.ShowNameHistogram | MicroBitDFUService.cpp:251-276 | The lit pixels are exactly the histogram: column WIDTH-1-i holds a bar of digit i + 1 pixels, bottom-aligned. |
| DfuService.LockCode | MicroBitDFUService.cpp:205-207 | The first four bytes, read little-endian into a `uint32_t`, give a value in [0, 2^32). |
| DfuService.OnDataWritten | MicroBitDFUService.cpp:147-222 | START_DFU on the control point starts the bootloader exactly when authenticated. START_PAIR sets the request. An empty control write, or any other opcode, changes nothing. A flash-code write of at least four bytes authenticates exactly when they hold the code; a shorter one changes nothing. The flash code is never changed. |
| DfuService.ReleaseFlashCode | MicroBitDFUService.cpp:281-289 | Sets the `flashCode` member to 0xcafe; the flags are unchanged. |
| DfuService.Confirm | MicroBitDFUService.cpp:113-126 | While the code is requested, a left-button press releases the code, clears the request and authenticates. Otherwise nothing changes. |
| DfuService.Disconnect | MicroBitDFUService.cpp:133-139 | When a flag is set and the peer is gone, both flags and the code are cleared; otherwise nothing changes. |
| DfuService.DisconnectFixed | MicroBitDFUService.cpp:133 | Corrected rule: a departed peer always leaves a new service behind. |
| DfuProperties.SeedDigitsExample | MicroBitDFUService.cpp:70-87 | For a 5-by-5 histogram, 0xbabe gives the digits 1, 1, 2, 2, 1. |
| DfuProperties.SeedNameExample | MicroBitDFUService.cpp:55-90 | The 5-by-5 name for 0xbabe is "vigov". |
| DfuProperties.NameMatchesHistogram | MicroBitDFUService.cpp:265-275 | Letter k of the name and column k of the histogram show the same digit: the bar rises from the bottom exactly to the row the digit gives. |
| DfuProperties.LetterDecodes | MicroBitDFUService.cpp:57-64 | Each codebook row lists five distinct letters, so a letter determines its digit. |
| DfuProperties.NameDecodes | MicroBitDFUService.cpp:55-90 | The name round-trips: reading it back through the codebook gives the digits it was built from. |
| DfuProperties.LockCodeBytes | MicroBitDFUService.cpp:203-209 | A flash-code write authenticates iff its first four bytes are FE CA 00 00. |
| DfuProperties.IgnoredWrites | MicroBitDFUService.cpp:153-222 | An empty control write, a flash-code write shorter than four bytes, and a write to any other characteristic change nothing. |
| DfuProperties.CodeWriteAloneAuthenticates | MicroBitDFUService.cpp:197-214 | From a new service, writing the code alone authenticates, with no pairing request and no button press. |
| DfuProperties.Apply | MicroBitDFUService.cpp:113-139 | A pairing-loop poll never starts the bootloader. |
| DfuProperties.RequestNeedsStartPair | MicroBitDFUService.cpp:187-192 | Over any run of writes and polls, the code is requested only after a START_PAIR write. |
| DfuProperties.AuthenticatedNeedsProof | MicroBitDFUService.cpp:113-220 | Over any run, under either disconnect rule, the peer is authenticated only after it wrote the code, or the button was pressed after a pairing request. |
| DfuProperties.BootloaderNeedsProof | MicroBitDFUService.cpp:175-183 | The bootloader starts only for a peer that proved itself earlier in the run. |
| DfuProperties.CodeNeedsPress | MicroBitDFUService.cpp:281-289 | Without a confirming press, the `flashCode` member stays zero. |
| DfuProperties.DisconnectKeepsCode | MicroBitDFUService.cpp:133-139 | As written: request, press, write a wrong code, disconnect. The peer is gone, yet the `flashCode` member still holds 0xcafe. |
| DfuProperties.DisconnectClearsAll | MicroBitDFUService.cpp:133 | With the corrected rule, every poll that finds the peer gone leaves a new service, whatever came before. |
| DfuProperties.DisconnectRulesAgree | MicroBitDFUService.cpp:134-139 | The two rules agree whenever a flag is set or the peer is still connected. |

## Left out

- Fibers: `create_fiber` and context switching are not part of this model. A spawn is recorded as the handler appended to `spawned`.
- Heap: listener allocation is not modelled. This includes the listener leaked on the skip path and the list dropped on head insertion. The model tracks list contents only.
- Display hardware: the PWM, row and column pin writes and the float brightness level are not modelled. Neither are `enable`/`disable`, `error()`, and the blocking `printString`/`scrollString`/`scrollImage` wrappers, which poll with `sleep`.
- Image: `MicroBitImage` is declared but not implemented in the files modelled. Pixel reads are a function parameter, and `paste`'s count is an input. `print`, `shiftLeft` and `clear` are recorded only as the characters printed. So scroll-image termination depends on that input and is not proved.
- Thermometer hardware: the register access and the busy-wait on the data-ready flag are hardware. The reading is the input `raw`.
- DFU plumbing: the following are not modelled.
  - BLE service registration, GATT handles, the UUID tables and `updateCharacteristicValue`.
  - `bootloader_start`, which is a flag in the result.
  - The `MAIN_FOTA_TEST` scroll-text characteristic.
  - The debug prints.
- The pairing loop: `scrollString`, the `wait` calls, the 100- and 40-iteration counters and `showTick` are not modelled. The loop is kept as polls, each one a confirmation check followed by the disconnect check.
- Integer widths:
  - Bus ids and values, tick counts and periods are unbounded integers. The 32-bit tick counter's wrap-around, and the overflow of `eventStartTime + PERIOD` or `ticks + samplePeriod`, are not modelled.
  - The bus sequence number `seq`, incremented at MicroBitMessageBus.cpp:157, is an unbounded integer. BusProperties.CachedSendAgrees, BusProperties.ListenKeepsCacheSound and BusProperties.StaleAfterListen hold only while the fixed-width counter never wraps; after a wrap an old cache could look current again.
  - The DFU loop's `d` and `ld` are unbounded. For a histogram of at most 5 by 5 they stay far below 2^31.
  - The thermometer register's signed reinterpretation is modelled explicitly.
  - The display's `int8_t` stride and `int16_t` image position (inc/MicroBitDisplay.h:168-171) are narrowed explicitly by Display.Narrow.
  - DisplayProperties.PrintTextTerminates, DisplayProperties.ScrollTextTerminates: the `uint16_t` counters `printingChar` and `scrollingChar` (inc/MicroBitDisplay.h:144, :159) are unbounded here. The stated update counts hold only for texts shorter than 65535 characters; a longer text wraps the counter and never ends.
  - The `uint16_t` `animationTick` and `animationDelay` and the `uint8_t` `scrollingPosition` are unbounded integers. The position stays below width + spacing, well inside 8 bits for a 5-by-5 display. The tick stays below the delay plus one tick period, so it could wrap only for a delay within one tick period of 65535, which the model does not cover.
- Button.Tick: the pin is read once per tick (`high`), while the source reads it twice, at MicroBitButton.cpp:54 and :78. This matters only if the pin changes between the two reads. From a settled button with a non-negative debounce period, at most one read affects a tick: a window already open ignores the read at :54, and a window opened at :54 cannot close at :78 in the same tick.
- The peer-visible flash code: the characteristic value a connected peer reads changes only through `updateCharacteristicValue` (MicroBitDFUService.cpp:288), which is not modelled. The DFU members speak of the `flashCode` member, and the disconnect reset at MicroBitDFUService.cpp:138 does not republish it.
- DfuService.GetName, DfuService.ShowNameHistogram: the digit loop is run first and the writes follow. This is equivalent, because no write feeds back into the loop.
- DfuService.ShowNameHistogram: its contract speaks of the set of pixels lit, not of each pixel's brightness value (always 255) or how often a pixel is written.
- Display.NewDisplay, Display.GetBrightness, Thermometer.GetPeriod, MessageBus.SendEvent: these carry no contract of their own. Their promises are stated by NewDisplayIdle, BrightnessRoundTrip, PeriodRoundTrip and CachedSendAgrees.
- ButtonProperties.CleanPress, ButtonProperties.CleanRelease: a full click from a new button is stated as these two halves, which meet at the pressed state, rather than as one four-tick run.
- Header mismatches: the display header declares `uint16_t` delays, an `int8_t` stride parameter and a `systemTick`. The model follows the `.cpp` (`int`, `int`, `strobeUpdate`).
- Files with no logic are not modelled: pin wiring, error codes, the serial wrapper and start-up.

## Findings

| source | as written | input that shows it | evidently intended | confidence | as-written member | corrected member |
|---|---|---|---|---|---|---|
| MicroBitMessageBus.cpp:147-148 | When the insertion point is the head, `listeners = newListener` runs with the new listener's `next` still NULL, so every registered listener is dropped | listen(5,7,A), then listen(5,ANY,B): the list is [B] and event (5,7) reaches only B | link the new listener in front of the old head | medium (not executed) | BusProperties.HeadInsertDropsListener | MessageBus.ListenLinked |
| MicroBitMessageBus.cpp:140 | The insertion scan tests `id <= id && value <= value` independently, not the (id, value) order the comment at line 134 claims, so listeners of one id can be split apart | listen (1,1), (1,10), (2,5) gives [(1,1),(2,5),(1,10)]; an event (1,10) then reaches nobody | insert at the lexicographic position, so that `send`'s contiguous-run walk sees every listener | medium (not executed) | BusProperties.MisorderedDispatchCounterexample | MessageBus.ListenSorted |
| MicroBitButton.cpp:54-85 | A debounce window opened when `ticks == 0` has `eventStartTime == 0`, which the completion test reads as "no window". The window flag stays set and the window never closes | a new button sees the pin low at tick 0: no event ever follows, however long the press | close the window by its flag, whatever tick it opened at | low (not executed) | ButtonProperties.PressAtTickZeroIgnored | ButtonProperties.PressAtTickZeroFixed |
| MicroBitButton.cpp:92-95 | `isPressed` returns the whole status word, including the hold and window flags | a press window opens while released: `isPressed()` is non-zero with no DOWN; after HOLD it returns 3 | return 1 when the debounced state is pressed, 0 otherwise, as its comment says | medium (not executed) | ButtonProperties.IsPressedBeforeDebounce | Button.IsPressedDebounced |
| MicroBitDFUService.cpp:134 | The disconnect reset runs only when a flag is set, so a released flash code survives a disconnect once a failed code write has cleared `authenticated` | START_PAIR, press, write 00 00 00 00, disconnect: both flags are clear, yet the `flashCode` member still holds 0xcafe | drop all state when the peer disconnects, as the comment at line 133 says | low (not executed) | DfuProperties.DisconnectKeepsCode | DfuProperties.DisconnectClearsAll |
