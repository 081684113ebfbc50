/**
 * Properties of the display: the rotation maps, the brightness and rotation
 * setters, and termination of the text animations with exactly one
 * completion event.
 */
module DisplayProperties {
  import opened Base
  import opened Display

  // ---------------------------------------------------------------------
  // Rotation maps
  // ---------------------------------------------------------------------

  /** Rotation 0, and every value the strobe switch does not list, shows each pixel in place. */
  lemma RotateUnlistedIsIdentity(rotation: int, width: int, height: int, p: Point)
    requires rotation != ROTATION_90 && rotation != ROTATION_180 && rotation != ROTATION_270
    ensures Rotate(rotation, width, height, p) == p
  {
  }

  /** Rotating by 180 twice gives the point back, and keeps it on the display. */
  lemma Rotate180Involution(width: int, height: int, p: Point)
    ensures Rotate(ROTATION_180, width, height, Rotate(ROTATION_180, width, height, p)) == p
    ensures InBounds(p, width, height) ==> InBounds(Rotate(ROTATION_180, width, height, p), width, height)
  {
  }

  /** On a square display the 90 and 270 maps undo each other and keep points on the display. */
  lemma Rotate90And270Inverse(size: int, p: Point)
    ensures Rotate(ROTATION_270, size, size, Rotate(ROTATION_90, size, size, p)) == p
    ensures Rotate(ROTATION_90, size, size, Rotate(ROTATION_270, size, size, p)) == p
    ensures InBounds(p, size, size) ==> InBounds(Rotate(ROTATION_90, size, size, p), size, size)
    ensures InBounds(p, size, size) ==> InBounds(Rotate(ROTATION_270, size, size, p), size, size)
  {
  }

  /** On a display that is not square the 90 map does not return to the start after the 270 map. */
  lemma Rotate90And270NotInverseWhenNotSquare(width: int, height: int, p: Point)
    requires width != height
    ensures Rotate(ROTATION_270, width, height, Rotate(ROTATION_90, width, height, p)) != p
  {
  }

  // ---------------------------------------------------------------------
  // Setters
  // ---------------------------------------------------------------------

  /** `setBrightness(b)` followed by `getBrightness()` gives `b` back for every b in 0..255. */
  lemma BrightnessRoundTrip(d: Display, b: int)
    requires 0 <= b <= MAX_BRIGHTNESS
    ensures GetBrightness(SetBrightness(d, b)) == b
  {
  }

  /** The brightness stays within 0..255 whatever `setBrightness` is given. */
  lemma BrightnessStaysInRange(d: Display, b: int)
    requires 0 <= d.brightness <= MAX_BRIGHTNESS
    ensures 0 <= GetBrightness(SetBrightness(d, b)) <= MAX_BRIGHTNESS
  {
  }

  /** The rotation stays one of the four positions whatever `rotateTo` is given. */
  lemma RotationStaysValid(d: Display, position: int)
    requires ValidRotation(d.rotation)
    ensures ValidRotation(RotateTo(d, position).rotation)
  {
  }

  /** A new display has default brightness, rotation 0, and ignores animation ticks. */
  lemma NewDisplayIdle(id: int, x: int, y: int, tickPeriod: int, spacing: int, pasteResult: int)
    ensures var d := NewDisplay(id, x, y);
      && GetBrightness(d) == 127 && d.rotation == ROTATION_0 && d.strobeRow == 0
      && AnimationUpdate(d, tickPeriod, spacing, pasteResult) == Step(d, [], [])
  {
  }

  /**
   * After any starter, the first `animationUpdate` already runs the mode
   * update: the reset leaves the tick one below the delay.
   */
  lemma FirstFrameImmediate(d: Display, tickPeriod: int, spacing: int, pasteResult: int)
    requires d.mode != NoAnimation
    requires d.animationTick == d.animationDelay - 1
    requires tickPeriod >= 1
    ensures AnimationUpdate(d, tickPeriod, spacing, pasteResult)
         == ModeStep(d.(animationTick := 0), spacing, pasteResult)
  {
  }

  // ---------------------------------------------------------------------
  // Print text
  // ---------------------------------------------------------------------

  /** `n` consecutive print-text updates. */
  function RunPrint(d: Display, n: nat): Step
    decreases n
  {
    if n == 0 then Step(d, [], [])
    else
      var s := UpdatePrintText(d);
      Then(s, RunPrint(s.display, n - 1))
  }

  /** The characters handed to `print` from position c on, n of them. */
  function Glyphs(text: string, c: int, n: nat): (g: seq<char>)
    ensures |g| == n
    ensures forall i :: 0 <= i < n ==> g[i] == Glyph(text, c + i)
  {
    seq(n, i => Glyph(text, c + i))
  }

  /** From position 0, the text followed by two blanks. */
  lemma GlyphsWholeText(text: string)
    ensures Glyphs(text, 0, |text| + 2) == text + [' ', ' ']
  {
  }

  lemma GlyphsCons(text: string, c: int, n: nat)
    requires n > 0
    ensures Glyphs(text, c, n) == [Glyph(text, c)] + Glyphs(text, c + 1, n - 1)
  {
  }

  /**
   * From print position c, the animation runs |text| + 2 - c more updates:
   * before the last one it is still printing with no event sent; after the
   * last it has stopped with exactly one PRINTTEXT_COMPLETE event, and every
   * remaining character (then two blanks) was printed in order.
   */
  lemma {:induction false} PrintRun(d: Display, n: nat)
    requires d.mode == PrintText && 0 <= d.printingChar <= |d.printingText| + 1
    requires n <= |d.printingText| + 2 - d.printingChar
    ensures var r := RunPrint(d, n);
      && r.drawn == Glyphs(d.printingText, d.printingChar, n)
      && r.display.id == d.id && r.display.printingText == d.printingText
      && (n < |d.printingText| + 2 - d.printingChar ==>
            && r.display.mode == PrintText && r.events == []
            && r.display.printingChar == d.printingChar + n)
      && (n == |d.printingText| + 2 - d.printingChar ==>
            && r.display.mode == NoAnimation
            && r.events == [Event(d.id, EVT_PRINTTEXT_COMPLETE)])
    decreases n
  {
    if n > 0 {
      var s := UpdatePrintText(d);
      if d.printingChar > |d.printingText| {
        assert n == 1;
        assert RunPrint(s.display, 0) == Step(s.display, [], []);
      } else {
        PrintRun(s.display, n - 1);
        GlyphsCons(d.printingText, d.printingChar, n);
      }
    }
  }

  /**
   * After `printStringAsync(s, delay)`, exactly |s| + 2 print-text updates
   * end the animation with one PRINTTEXT_COMPLETE event, having printed s
   * and then two blanks; after any fewer the animation is still running,
   * no event was sent, and the print position is at most |s| + 1.
   */
  lemma PrintTextTerminates(d0: Display, s: string, delay: int, n: nat)
    requires n <= |s| + 2
    ensures var r := RunPrint(PrintStringAsync(d0, s, delay), n);
      && (n < |s| + 2 ==>
            r.display.mode == PrintText && r.events == [] && r.display.printingChar == n <= |s| + 1)
      && (n == |s| + 2 ==>
            && r.display.mode == NoAnimation
            && r.events == [Event(d0.id, EVT_PRINTTEXT_COMPLETE)]
            && r.drawn == s + [' ', ' '])
  {
    PrintRun(PrintStringAsync(d0, s, delay), n);
    GlyphsWholeText(s);
  }

  // ---------------------------------------------------------------------
  // Scroll text
  // ---------------------------------------------------------------------

  /** `n` consecutive scroll-text updates. */
  function RunScroll(d: Display, spacing: int, n: nat): Step
    decreases n
  {
    if n == 0 then Step(d, [], [])
    else
      var s := UpdateScrollText(d, spacing);
      Then(s, RunScroll(s.display, spacing, n - 1))
  }

  /** A scroll in progress: position within one character cell, character index at most one past the end. */
  predicate Scrolling(d: Display, spacing: int)
  {
    && d.mode == ScrollText
    && 0 <= d.scrollingPosition < d.width + spacing
    && 0 <= d.scrollingChar <= |d.scrollingText| + 1
  }

  /** Updates left before the scroll stops: the rest of this cell, then one cell per remaining character index. */
  function ScrollRemaining(d: Display, spacing: int): int
  {
    (d.width + spacing - d.scrollingPosition)
      + (|d.scrollingText| + 1 - d.scrollingChar) * (d.width + spacing)
  }

  /** The remaining count of a scroll in progress is positive, and is one exactly on the update that stops it. */
  lemma ScrollRemainingPositive(d: Display, spacing: int)
    requires Scrolling(d, spacing)
    ensures ScrollRemaining(d, spacing) >= 1
    ensures ScrollRemaining(d, spacing) == 1 <==>
      d.scrollingPosition + 1 == d.width + spacing && d.scrollingChar > |d.scrollingText|
  {
    var m := d.width + spacing;
    var k := |d.scrollingText| + 1 - d.scrollingChar;
    assert k * m >= 0;
    if k > 0 {
      assert k * m >= m;
    }
  }

  /** One update of a scroll in progress that does not finish it takes exactly one off the remaining count. */
  lemma ScrollStep(d: Display, spacing: int)
    requires Scrolling(d, spacing)
    requires ScrollRemaining(d, spacing) > 1
    ensures var s := UpdateScrollText(d, spacing);
      && Scrolling(s.display, spacing) && s.events == []
      && s.display.width == d.width && s.display.id == d.id
      && ScrollRemaining(s.display, spacing) == ScrollRemaining(d, spacing) - 1
  {
    ScrollRemainingPositive(d, spacing);
    var m := d.width + spacing;
    var l := |d.scrollingText|;
    if d.scrollingPosition + 1 == m {
      assert (l + 1 - d.scrollingChar) * m == (l - d.scrollingChar) * m + m;
    }
  }

  /** Short of the final update, what one update prints followed by everything still to print afterwards is everything still to print before it. */
  lemma ScrollStepDrawn(d: Display, spacing: int)
    requires Scrolling(d, spacing)
    requires !(d.scrollingPosition + 1 == d.width + spacing && d.scrollingChar > |d.scrollingText|)
    ensures var s := UpdateScrollText(d, spacing);
      var text := d.scrollingText;
      && s.display.scrollingText == text
      && 0 <= s.display.scrollingChar <= |text| + 2
      && s.drawn + Glyphs(text, s.display.scrollingChar, |text| + 2 - s.display.scrollingChar)
         == Glyphs(text, d.scrollingChar, |text| + 2 - d.scrollingChar)
  {
    var text, c := d.scrollingText, d.scrollingChar;
    if d.scrollingPosition + 1 == d.width + spacing {
      GlyphsCons(text, c, |text| + 2 - c);
    } else {
      assert [] + Glyphs(text, c, |text| + 2 - c) == Glyphs(text, c, |text| + 2 - c);
    }
  }

  /**
   * From a scroll in progress, the animation runs ScrollRemaining more
   * updates: before the last one it is still scrolling, within bounds, with
   * no event sent; after the last it has stopped with exactly one
   * SCROLLTEXT_COMPLETE event, having printed every remaining character and
   * then the blanks, in order.
   */
  lemma {:induction false} ScrollRun(d: Display, spacing: int, n: nat)
    requires Scrolling(d, spacing)
    requires n <= ScrollRemaining(d, spacing)
    ensures var r := RunScroll(d, spacing, n);
      && r.display.width == d.width && r.display.id == d.id
      && (n < ScrollRemaining(d, spacing) ==>
            && Scrolling(r.display, spacing) && r.events == []
            && ScrollRemaining(r.display, spacing) == ScrollRemaining(d, spacing) - n)
      && (n == ScrollRemaining(d, spacing) ==>
            && r.display.mode == NoAnimation
            && r.events == [Event(d.id, EVT_SCROLLTEXT_COMPLETE)]
            && r.drawn == Glyphs(d.scrollingText, d.scrollingChar, |d.scrollingText| + 2 - d.scrollingChar))
    decreases n
  {
    ScrollRemainingPositive(d, spacing);
    if n > 0 {
      var s := UpdateScrollText(d, spacing);
      if ScrollRemaining(d, spacing) == 1 {
        assert RunScroll(s.display, spacing, 0) == Step(s.display, [], []);
      } else {
        ScrollStep(d, spacing);
        ScrollRun(s.display, spacing, n - 1);
        ScrollStepDrawn(d, spacing);
      }
    }
  }

  /**
   * After `scrollStringAsync(s, delay)` on a display at least one pixel
   * wide with non-negative spacing, the scroll stops after exactly
   * (spacing + 1) + (|s| + 1) * (width + spacing) updates with one
   * SCROLLTEXT_COMPLETE event, having printed s and then two blanks; before
   * that the position stays in [0, width + spacing) and no event is sent.
   */
  lemma ScrollTextTerminates(d0: Display, s: string, delay: int, spacing: int, n: nat)
    requires d0.width >= 1 && spacing >= 0
    requires n <= (spacing + 1) + (|s| + 1) * (d0.width + spacing)
    ensures var total := (spacing + 1) + (|s| + 1) * (d0.width + spacing);
      var r := RunScroll(ScrollStringAsync(d0, s, delay), spacing, n);
      && (n < total ==>
            && r.display.mode == ScrollText && r.events == []
            && 0 <= r.display.scrollingPosition < d0.width + spacing)
      && (n == total ==>
            && r.display.mode == NoAnimation
            && r.events == [Event(d0.id, EVT_SCROLLTEXT_COMPLETE)]
            && r.drawn == s + [' ', ' '])
  {
    var d := ScrollStringAsync(d0, s, delay);
    assert ScrollRemaining(d, spacing) == (spacing + 1) + (|s| + 1) * (d0.width + spacing);
    ScrollRun(d, spacing, n);
    GlyphsWholeText(s);
  }

  /**
   * The stride is stored in an `int8_t`: a stride of -128 is stored as -128,
   * the same as a stride of 128, so that image starts left of the display
   * and moves further left; a stride of 200 is stored as 56.
   */
  lemma StrideNarrowing(d: Display, imageWidth: int, delay: int)
    requires 0 <= d.width < INT16_RANGE / 2 && 0 <= imageWidth <= INT16_RANGE / 2
    ensures var r := ScrollImageAsync(d, imageWidth, delay, -128);
      r.scrollingImageStride == -128 && r.scrollingImagePosition == -imageWidth
    ensures var r := ScrollImageAsync(d, imageWidth, delay, 128);
      r.scrollingImageStride == -128 && r.scrollingImagePosition == d.width
    ensures ScrollImageAsync(d, imageWidth, delay, 200).scrollingImageStride == 56
  {
  }
}
