/**
 * The LED matrix display: the rotation and column-bit computation of one
 * strobe step, the tick-driven animation state machine with its three
 * animations (print text, scroll text, scroll image), and the brightness
 * and rotation setters.
 *
 * The bitmap image is not modelled. Reading a pixel is the function
 * parameter `pixel`; the number of pixels `paste` reports is the input
 * `pasteResult`; `clear` and `shiftLeft` change nothing observable here; a
 * call to `print` is recorded as the character handed to it (`drawn`).
 */
module Display {
  import opened Base

  const ROTATION_0: int := 0
  const ROTATION_90: int := 1
  const ROTATION_180: int := 2
  const ROTATION_270: int := 3

  const DEFAULT_SCROLL_SPEED: int := 120
  const MAX_BRIGHTNESS: int := 255
  const DEFAULT_BRIGHTNESS: int := MAX_BRIGHTNESS / 2

  const EVT_SCROLLTEXT_COMPLETE: int := 1
  const EVT_PRINTTEXT_COMPLETE: int := 2
  const EVT_SCROLLIMAGE_COMPLETE: int := 3

  /** Matrix geometry of the board configuration the header selects. */
  const ROW_COUNT: nat := 3
  const COLUMN_COUNT: nat := 9

  /** The number of values of the header's `int8_t` stride and `int16_t` image position fields. */
  const INT8_RANGE: nat := 0x100
  const INT16_RANGE: nat := 0x1_0000

  /**
   * Storing `x` into a signed two's-complement field with `range` values:
   * the value congruent to `x` modulo `range` in [-range/2, range/2), as the
   * target's compiler narrows an `int`.
   */
  function Narrow(x: int, range: nat): (r: int)
    requires range >= 2 && range % 2 == 0
    ensures -(range / 2) <= r < range / 2
    ensures (x - r) % range == 0
    ensures -(range / 2) <= x < range / 2 ==> r == x
  {
    var m := x % range;
    DivUnique(x - m, range, x / range, 0);
    DivUnique(x - (m - range), range, x / range + 1, 0);
    if m < range / 2 then m else m - range
  }

  datatype Mode = NoAnimation | ScrollText | PrintText | ScrollImage | AnimateImage

  datatype Point = Point(x: int, y: int)

  datatype Display = Display(
    id: int,
    width: int,
    height: int,
    brightness: int,
    strobeRow: int,
    rotation: int,
    mode: Mode,
    animationDelay: int,
    animationTick: int,
    scrollingText: string,
    scrollingChar: int,
    scrollingPosition: int,
    printingText: string,
    printingChar: int,
    scrollingImageWidth: int,
    scrollingImagePosition: int,
    scrollingImageStride: int,
    scrollingImageRendered: bool)

  /** One update: the display afterwards, the events sent, and the characters handed to `print`. */
  datatype Step = Step(display: Display, events: seq<Event>, drawn: seq<char>)

  /** Two updates in a row. */
  function Then(a: Step, b: Step): Step
  {
    Step(b.display, a.events + b.events, a.drawn + b.drawn)
  }

  /**
   * The constructor for an x-by-y display: first strobe row, no rotation,
   * default brightness, no animation. Fields the constructor leaves
   * uninitialised are zero, as for any member of a statically allocated
   * object.
   */
  function NewDisplay(id: int, x: int, y: int): (d: Display)
  {
    Display(id, x, y, DEFAULT_BRIGHTNESS, 0, ROTATION_0, NoAnimation, 0, 0,
            [], 0, 0, [], 0, 0, 0, 0, false)
  }

  // ---------------------------------------------------------------------
  // Brightness and rotation
  // ---------------------------------------------------------------------

  /** `setBrightness(b)`: values outside 0..255 are ignored. */
  function SetBrightness(d: Display, b: int): (r: Display)
    ensures 0 <= b <= MAX_BRIGHTNESS ==> r == d.(brightness := b)
    ensures !(0 <= b <= MAX_BRIGHTNESS) ==> r == d
  {
    if b < 0 || b > 255 then d else d.(brightness := b)
  }

  function GetBrightness(d: Display): int
  {
    d.brightness
  }

  predicate ValidRotation(r: int)
  {
    r == ROTATION_0 || r == ROTATION_90 || r == ROTATION_180 || r == ROTATION_270
  }

  /** `rotateTo(position)`: only the four axis-aligned positions are accepted. */
  function RotateTo(d: Display, position: int): (r: Display)
    ensures ValidRotation(position) ==> r == d.(rotation := position)
    ensures !ValidRotation(position) ==> r == d
  {
    if position == ROTATION_0 then d.(rotation := ROTATION_0)
    else if position == ROTATION_90 then d.(rotation := ROTATION_90)
    else if position == ROTATION_180 then d.(rotation := ROTATION_180)
    else if position == ROTATION_270 then d.(rotation := ROTATION_270)
    else d
  }

  /**
   * The coordinate map of the strobe loop: which image pixel a matrix
   * position shows under the current rotation. Any value other than the
   * three rotated positions leaves the point where it is.
   */
  function Rotate(rotation: int, width: int, height: int, p: Point): (q: Point)
    ensures rotation != ROTATION_90 && rotation != ROTATION_180 && rotation != ROTATION_270 ==> q == p
    ensures (rotation == ROTATION_180 || width == height) && InBounds(p, width, height) ==> InBounds(q, width, height)
  {
    if rotation == ROTATION_90 then Point(width - 1 - p.y, p.x)
    else if rotation == ROTATION_180 then Point(width - 1 - p.x, height - 1 - p.y)
    else if rotation == ROTATION_270 then Point(p.y, height - 1 - p.x)
    else p
  }

  predicate InBounds(p: Point, width: int, height: int)
  {
    0 <= p.x < width && 0 <= p.y < height
  }

  // ---------------------------------------------------------------------
  // Column bits of one strobe step
  // ---------------------------------------------------------------------

  function Pow2(n: nat): (p: nat)
    ensures p >= 1
  {
    if n == 0 then 1 else 2 * Pow2(n - 1)
  }

  /** Bit `i` of `v`, read by halving. */
  predicate BitSet(v: nat, i: nat)
  {
    if i == 0 then v % 2 == 1 else BitSet(v / 2, i - 1)
  }

  /** A number below 2^i has no bit at position i or above. */
  lemma {:induction false} BitsAbove(v: nat, i: nat, j: nat)
    requires v < Pow2(i) && i <= j
    ensures !BitSet(v, j)
  {
    if i == 0 {
      ZeroHasNoBits(j);
    } else {
      BitsAbove(v / 2, i - 1, j - 1);
    }
  }

  lemma {:induction false} ZeroHasNoBits(j: nat)
    ensures !BitSet(0, j)
  {
    if j > 0 {
      ZeroHasNoBits(j - 1);
    }
  }

  /** Setting bit i of a number below 2^i adds 2^i and leaves the lower bits alone. */
  lemma {:induction false} AddHighBit(v: nat, i: nat, j: nat)
    requires v < Pow2(i)
    ensures BitSet(v + Pow2(i), j) <==> (j == i || BitSet(v, j))
  {
    if i == 0 {
      assert v == 0;
      if j > 0 {
        ZeroHasNoBits(j - 1);
        ZeroHasNoBits(j);
      }
    } else if j == 0 {
    } else {
      assert (v + Pow2(i)) / 2 == v / 2 + Pow2(i - 1);
      AddHighBit(v / 2, i - 1, j - 1);
    }
  }

  /**
   * `coldata |= (1 << i)` when the column is lit, for a pattern with no
   * bit at i or above: the or then adds 2^i, and only bit i can change.
   */
  function OrColumn(coldata: nat, i: nat, lit: bool): (c: nat)
    requires coldata < Pow2(i)
    ensures c < Pow2(i + 1)
    ensures forall j: nat :: BitSet(c, j) <==> (if j == i then lit else BitSet(coldata, j))
  {
    BitsAbove(coldata, i, i);
    if lit then
      assert forall j: nat :: BitSet(coldata + Pow2(i), j) <==> (j == i || BitSet(coldata, j)) by {
        forall j: nat
          ensures BitSet(coldata + Pow2(i), j) <==> (j == i || BitSet(coldata, j))
        {
          AddHighBit(coldata, i, j);
        }
      }
      coldata + Pow2(i)
    else
      coldata
  }

  /** Every column of the matrix map lists a point for every row. */
  predicate WellShaped(matrixMap: seq<seq<Point>>)
  {
    |matrixMap| == COLUMN_COUNT && forall i :: 0 <= i < |matrixMap| ==> |matrixMap[i]| == ROW_COUNT
  }

  /** The LED in column `i` of matrix row `row` shows a lit pixel under the display's rotation. */
  predicate ColumnLit(d: Display, matrixMap: seq<seq<Point>>, pixel: (int, int) -> int, row: int, i: int)
    requires WellShaped(matrixMap) && 0 <= row < ROW_COUNT && 0 <= i < COLUMN_COUNT
  {
    var p := Rotate(d.rotation, d.width, d.height, matrixMap[i][row]);
    pixel(p.x, p.y) != 0
  }

  /**
   * The column loop of `strobeUpdate` for one matrix row: bit i of the
   * pattern is set exactly when column i shows a lit pixel, and no bit
   * beyond the last column is set.
   */
  method ColumnData(d: Display, matrixMap: seq<seq<Point>>, pixel: (int, int) -> int, row: int)
    returns (coldata: nat)
    requires WellShaped(matrixMap) && 0 <= row < ROW_COUNT
    ensures coldata < Pow2(COLUMN_COUNT)
    ensures forall i :: 0 <= i < COLUMN_COUNT ==>
      (BitSet(coldata, i) <==> ColumnLit(d, matrixMap, pixel, row, i))
    ensures forall i: nat :: i >= COLUMN_COUNT ==> !BitSet(coldata, i)
  {
    coldata := 0;
    var i := 0;
    while i < COLUMN_COUNT
      invariant 0 <= i <= COLUMN_COUNT
      invariant coldata < Pow2(i)
      invariant forall j :: 0 <= j < i ==> (BitSet(coldata, j) <==> ColumnLit(d, matrixMap, pixel, row, j))
    {
      var p := Rotate(d.rotation, d.width, d.height, matrixMap[i][row]);
      coldata := OrColumn(coldata, i, pixel(p.x, p.y) != 0);
      i := i + 1;
    }
    forall j: nat | j >= COLUMN_COUNT
      ensures !BitSet(coldata, j)
    {
      BitsAbove(coldata, COLUMN_COUNT, j);
    }
  }

  /**
   * `strobeUpdate`: move to the next row, compute the column bit pattern
   * for it, then run `animationUpdate`. `coldata` is the pattern before the
   * inversion the pin write applies.
   */
  method StrobeUpdate(d: Display, matrixMap: seq<seq<Point>>, pixel: (int, int) -> int,
                      tickPeriod: int, spacing: int, pasteResult: int)
    returns (s: Step, coldata: nat)
    requires WellShaped(matrixMap)
    requires d.strobeRow >= 0
    ensures 0 <= s.display.strobeRow < ROW_COUNT
    ensures s.display.strobeRow == (d.strobeRow + 1) % ROW_COUNT
    ensures coldata < Pow2(COLUMN_COUNT)
    ensures forall i :: 0 <= i < COLUMN_COUNT ==>
      (BitSet(coldata, i) <==> ColumnLit(d, matrixMap, pixel, s.display.strobeRow, i))
    ensures forall i: nat :: i >= COLUMN_COUNT ==> !BitSet(coldata, i)
    ensures s == AnimationUpdate(d.(strobeRow := s.display.strobeRow), tickPeriod, spacing, pasteResult)
  {
    var row := (d.strobeRow + 1) % ROW_COUNT;
    coldata := ColumnData(d, matrixMap, pixel, row);
    s := AnimationUpdate(d.(strobeRow := row), tickPeriod, spacing, pasteResult);
  }

  // ---------------------------------------------------------------------
  // Animation updates
  // ---------------------------------------------------------------------

  /** The character `print` is given for position k of `text`: the character itself, or a blank past the end. */
  function Glyph(text: string, k: int): char
  {
    if 0 <= k < |text| then text[k] else ' '
  }

  /**
   * `updateScrollText`: shift by one pixel; at a character boundary print
   * the next character, and once the index has passed the end of the text
   * stop the animation and send SCROLLTEXT_COMPLETE.
   */
  function UpdateScrollText(d: Display, spacing: int): (s: Step)
    ensures s.display.mode == d.mode || s.display.mode == NoAnimation
    ensures s.display.id == d.id && s.display.scrollingText == d.scrollingText
    ensures s.events == [] || s.events == [Event(d.id, EVT_SCROLLTEXT_COMPLETE)]
    ensures s.events != [] <==>
      d.scrollingPosition + 1 == d.width + spacing && d.scrollingChar > |d.scrollingText|
    ensures s.events != [] ==> s.display.mode == NoAnimation
    ensures s.events == [] ==> s.display.mode == d.mode
    ensures s.drawn == (if d.scrollingPosition + 1 == d.width + spacing
                        then [Glyph(d.scrollingText, d.scrollingChar)] else [])
    ensures d.scrollingPosition + 1 != d.width + spacing ==>
      s.display == d.(scrollingPosition := d.scrollingPosition + 1)
    ensures d.scrollingPosition + 1 == d.width + spacing && d.scrollingChar > |d.scrollingText| ==>
      s.display == d.(scrollingPosition := 0, mode := NoAnimation)
    ensures d.scrollingPosition + 1 == d.width + spacing && d.scrollingChar <= |d.scrollingText| ==>
      s.display == d.(scrollingPosition := 0, scrollingChar := d.scrollingChar + 1)
  {
    var pos := d.scrollingPosition + 1;
    if pos == d.width + spacing then
      var drawn := [Glyph(d.scrollingText, d.scrollingChar)];
      if d.scrollingChar > |d.scrollingText| then
        Step(d.(scrollingPosition := 0, mode := NoAnimation), [Event(d.id, EVT_SCROLLTEXT_COMPLETE)], drawn)
      else
        Step(d.(scrollingPosition := 0, scrollingChar := d.scrollingChar + 1), [], drawn)
    else
      Step(d.(scrollingPosition := pos), [], [])
  }

  /**
   * `updatePrintText`: print the current character (a blank past the end);
   * once the index has passed the end of the text stop the animation and
   * send PRINTTEXT_COMPLETE, otherwise move to the next character.
   */
  function UpdatePrintText(d: Display): (s: Step)
    ensures s.display.mode == d.mode || s.display.mode == NoAnimation
    ensures s.display.id == d.id && s.display.printingText == d.printingText
    ensures s.drawn == [Glyph(d.printingText, d.printingChar)]
    ensures d.printingChar > |d.printingText| ==>
      s.display.mode == NoAnimation && s.events == [Event(d.id, EVT_PRINTTEXT_COMPLETE)]
    ensures d.printingChar <= |d.printingText| ==>
      s.display.mode == d.mode && s.events == [] && s.display.printingChar == d.printingChar + 1
  {
    var drawn := [Glyph(d.printingText, d.printingChar)];
    if d.printingChar > |d.printingText| then
      Step(d.(mode := NoAnimation), [Event(d.id, EVT_PRINTTEXT_COMPLETE)], drawn)
    else
      Step(d.(printingChar := d.printingChar + 1), [], drawn)
  }

  /**
   * `updateScrollImage`: when the paste drew nothing and the image has been
   * shown at least once, stop the animation and send SCROLLIMAGE_COMPLETE;
   * otherwise advance by the stride and mark the image as shown.
   */
  function UpdateScrollImage(d: Display, pasteResult: int): (s: Step)
    ensures s.display.mode == d.mode || s.display.mode == NoAnimation
    ensures s.drawn == []
    ensures pasteResult == 0 && d.scrollingImageRendered ==>
      s.display.mode == NoAnimation && s.events == [Event(d.id, EVT_SCROLLIMAGE_COMPLETE)]
    ensures !(pasteResult == 0 && d.scrollingImageRendered) ==>
      && s.events == [] && s.display.mode == d.mode && s.display.scrollingImageRendered
      && s.display.scrollingImagePosition == Narrow(d.scrollingImagePosition + d.scrollingImageStride, INT16_RANGE)
      && (-(INT16_RANGE / 2) <= d.scrollingImagePosition + d.scrollingImageStride < INT16_RANGE / 2 ==>
            s.display.scrollingImagePosition == d.scrollingImagePosition + d.scrollingImageStride)
  {
    if pasteResult == 0 && d.scrollingImageRendered then
      Step(d.(mode := NoAnimation), [Event(d.id, EVT_SCROLLIMAGE_COMPLETE)], [])
    else
      Step(d.(scrollingImagePosition := Narrow(d.scrollingImagePosition + d.scrollingImageStride, INT16_RANGE),
              scrollingImageRendered := true), [], [])
  }

  /** Exactly one update, the one for the current animation mode. */
  function ModeStep(d: Display, spacing: int, pasteResult: int): Step
  {
    match d.mode
    case ScrollText => UpdateScrollText(d, spacing)
    case PrintText => UpdatePrintText(d)
    case ScrollImage => UpdateScrollImage(d, pasteResult)
    case _ => Step(d, [], [])
  }

  /**
   * `animationUpdate`: nothing without an animation; otherwise advance the
   * tick by one fiber tick period, and when it reaches the delay reset it
   * and run the mode updates. The three mode tests are made one after the
   * other, as written; since an update can only stop its animation, exactly
   * one of them runs.
   */
  function AnimationUpdate(d: Display, tickPeriod: int, spacing: int, pasteResult: int): (s: Step)
    ensures d.mode == NoAnimation ==> s == Step(d, [], [])
    ensures d.mode != NoAnimation && d.animationTick + tickPeriod < d.animationDelay ==>
      s == Step(d.(animationTick := d.animationTick + tickPeriod), [], [])
    ensures d.mode != NoAnimation && d.animationTick + tickPeriod >= d.animationDelay ==>
      s == ModeStep(d.(animationTick := 0), spacing, pasteResult)
  {
    if d.mode == NoAnimation then Step(d, [], [])
    else
      var d1 := d.(animationTick := d.animationTick + tickPeriod);
      if d1.animationTick >= d1.animationDelay then
        var d2 := d1.(animationTick := 0);
        var s1 := if d2.mode == ScrollText then UpdateScrollText(d2, spacing) else Step(d2, [], []);
        var s2 := if s1.display.mode == PrintText then Then(s1, UpdatePrintText(s1.display)) else s1;
        var s3 := if s2.display.mode == ScrollImage then Then(s2, UpdateScrollImage(s2.display, pasteResult)) else s2;
        s3
      else
        Step(d1, [], [])
  }

  // ---------------------------------------------------------------------
  // Starting animations
  // ---------------------------------------------------------------------

  /** The delay sanitisation every starter applies: a non-positive delay becomes the default scroll speed. */
  function Sanitise(delay: int): (r: int)
    ensures r > 0
    ensures delay > 0 ==> r == delay
  {
    if delay <= 0 then DEFAULT_SCROLL_SPEED else delay
  }

  /**
   * `resetAnimation(delay)`: stop any animation and arm the tick so that the
   * next `animationUpdate` reaches the delay.
   */
  function ResetAnimation(d: Display, delay: int): (r: Display)
    ensures r.mode == NoAnimation
    ensures r.animationDelay > 0 && r.animationTick == r.animationDelay - 1
    ensures delay > 0 ==> r.animationDelay == delay
    ensures delay <= 0 ==> r.animationDelay == DEFAULT_SCROLL_SPEED
    ensures r == d.(mode := NoAnimation, animationDelay := r.animationDelay, animationTick := r.animationTick)
  {
    var delay' := Sanitise(delay);
    d.(mode := NoAnimation, animationDelay := delay', animationTick := delay' - 1)
  }

  /** `printStringAsync(s, delay)`. */
  function PrintStringAsync(d: Display, s: string, delay: int): (r: Display)
    ensures r.mode == PrintText && r.printingText == s && r.printingChar == 0
    ensures r.animationDelay == Sanitise(delay) && r.animationTick == r.animationDelay - 1
    ensures r.id == d.id
    ensures r == d.(mode := PrintText, animationDelay := r.animationDelay, animationTick := r.animationTick,
                    printingText := s, printingChar := 0)
  {
    ResetAnimation(d, Sanitise(delay)).(printingChar := 0, printingText := s, mode := PrintText)
  }

  /** `scrollStringAsync(s, delay)`: the first update brings the position to the display width. */
  function ScrollStringAsync(d: Display, s: string, delay: int): (r: Display)
    ensures r.mode == ScrollText && r.scrollingText == s && r.scrollingChar == 0
    ensures r.scrollingPosition == d.width - 1
    ensures r.animationDelay == Sanitise(delay) && r.animationTick == r.animationDelay - 1
    ensures r.id == d.id && r.width == d.width
    ensures r == d.(mode := ScrollText, animationDelay := r.animationDelay, animationTick := r.animationTick,
                    scrollingText := s, scrollingChar := 0, scrollingPosition := d.width - 1)
  {
    ResetAnimation(d, Sanitise(delay)).(scrollingPosition := d.width - 1, scrollingChar := 0,
                                        scrollingText := s, mode := ScrollText)
  }

  /**
   * `scrollImageAsync(image, delay, stride)`: the stride is negated, so a
   * positive stride scrolls right to left starting just past the right edge;
   * a non-positive one starts just past the left edge. The direction is
   * chosen on the full `int`; the stride and the start position are then
   * narrowed into the `int8_t` and `int16_t` fields that hold them.
   */
  function ScrollImageAsync(d: Display, imageWidth: int, delay: int, stride: int): (r: Display)
    ensures r.mode == ScrollImage && !r.scrollingImageRendered
    ensures -(INT8_RANGE / 2) <= r.scrollingImageStride < INT8_RANGE / 2
    ensures (r.scrollingImageStride + stride) % INT8_RANGE == 0
    ensures -(INT8_RANGE / 2) < stride <= INT8_RANGE / 2 ==> r.scrollingImageStride == -stride
    ensures stride > 0 ==> r.scrollingImagePosition == Narrow(d.width, INT16_RANGE)
    ensures stride <= 0 ==> r.scrollingImagePosition == Narrow(-imageWidth, INT16_RANGE)
    ensures 0 <= d.width < INT16_RANGE / 2 && 0 <= imageWidth <= INT16_RANGE / 2 ==>
      r.scrollingImagePosition == (if stride > 0 then d.width else -imageWidth)
    ensures r.scrollingImageWidth == imageWidth && r.id == d.id
    ensures r.animationDelay == Sanitise(delay) && r.animationTick == r.animationDelay - 1
    ensures r == d.(mode := ScrollImage, animationDelay := r.animationDelay, animationTick := r.animationTick,
                    scrollingImagePosition := r.scrollingImagePosition, scrollingImageStride := r.scrollingImageStride,
                    scrollingImageWidth := imageWidth, scrollingImageRendered := false)
  {
    var stride' := -stride;
    ResetAnimation(d, Sanitise(delay)).(
      scrollingImagePosition := Narrow(if stride' < 0 then d.width else -imageWidth, INT16_RANGE),
      scrollingImageStride := Narrow(stride', INT8_RANGE),
      scrollingImageWidth := imageWidth,
      scrollingImageRendered := false,
      mode := ScrollImage)
  }
}
