/**
 * The pairing helpers of the firmware-update service: the device name and
 * histogram derived from the device id, and the flags that decide whether
 * a peer may start the bootloader.
 *
 * The device id is the fixed seed the code uses. The histogram width and
 * height are parameters of at most 5, the size of the name codebook. BLE
 * plumbing is left out: a write reaches the model as the characteristic it
 * targets and its bytes; starting the bootloader is a flag in the result.
 */
module DfuService {
  import opened Base
  import opened Display

  /** The value the name and histogram are derived from. */
  const SEED: int := 0xbabe

  /** The flash code released to a paired peer and expected back from it. */
  const FLASH_CODE: int := 0xcafe

  /** Row i gives the letter for the i-th digit: consonants on even rows, vowels on odd ones. */
  const CODEBOOK: seq<string> := ["zvgpt", "uoiea", "zvgpt", "uoiea", "zvgpt"]

  const CONSONANTS: string := "zvgpt"
  const VOWELS: string := "uoiea"

  /** Histogram dimensions the 5-by-5 codebook can serve. */
  predicate ValidShape(width: int, height: int)
  {
    0 <= width <= 5 && 1 <= height <= 5
  }

  // ---------------------------------------------------------------------
  // Digits
  // ---------------------------------------------------------------------

  lemma DivBelow(a: int, ld: int, h: int)
    requires ld >= 1 && h >= 1 && 0 <= a < ld * h
    ensures 0 <= a / ld < h
  {
    DivUnique(a, ld, a / ld, a % ld);
    if a / ld >= h {
      MulAtLeast(a / ld - h + 1, ld);
    }
  }

  /** A remainder of a non-negative number is at most the number. */
  lemma ModAtMost(n: int, d: int)
    requires n >= 0 && d > 0
    ensures 0 <= n % d < d && n % d <= n
  {
    if n < d {
      DivUnique(n, d, 0, n);
    }
  }

  /** A quotient of a non-negative number by a positive one is at most the number. */
  lemma DivAtMost(a: int, ld: int)
    requires a >= 0 && ld >= 1
    ensures 0 <= a / ld <= a
  {
    var x := a / ld;
    assert x * ld + a % ld == a;
    if x > 0 {
      MulAtLeast(ld, x);
    }
  }

  /** One step of the digit loop keeps its state well formed: the digit is below h and at most n. */
  lemma DigitStep(n: int, d: int, ld: int, h: int)
    requires n >= 0 && ld >= 1 && h >= 1 && d == ld * h
    ensures 0 <= (n % d) / ld < h
    ensures (n % d) / ld <= n
    ensures ld * h >= 1
  {
    MulAtLeast(h, ld);
    ModAtMost(n, d);
    DivBelow(n % d, ld, h);
    DivAtMost(n % d, ld);
  }

  /**
   * The digit loop shared by `getName` and `showNameHistogram`, from a
   * state (n, d, ld) with d = ld * h: the digit is (n mod d) / ld, then n
   * loses the digit and d and ld grow by a factor h. `n` stays
   * non-negative, so C's `%` agrees with the one used here.
   */
  function DigitsFrom(n: int, d: int, ld: int, h: int, k: nat): (ds: seq<int>)
    requires n >= 0 && ld >= 1 && h >= 1 && d == ld * h
    ensures |ds| == k
    ensures forall i :: 0 <= i < k ==> 0 <= ds[i] < h
    decreases k
  {
    if k == 0 then []
    else
      var x := (n % d) / ld;
      DigitStep(n, d, ld, h);
      [x] + DigitsFrom(n - x, d * h, ld * h, h, k - 1)
  }

  /** The seed's digits, one per histogram column. */
  function Digits(width: int, height: int): (ds: seq<int>)
    requires ValidShape(width, height)
    ensures |ds| == width
    ensures forall i :: 0 <= i < width ==> 0 <= ds[i] < height
  {
    DigitsFrom(SEED, height, 1, height, width)
  }

  /** The textbook base-h expansion of m, least significant digit first. */
  function BaseDigits(m: nat, h: int, k: nat): (ds: seq<int>)
    requires h >= 1
    ensures |ds| == k
    decreases k
  {
    if k == 0 then [] else [m % h] + BaseDigits(m / h, h, k - 1)
  }

  /**
   * From n = hi * p + lo with lo < p, the digit read at place p is the
   * lowest base-h digit of hi, and taking it away from n leaves the rest
   * of hi above a low part still below p * h.
   */
  lemma FirstDigit(n: int, hi: nat, lo: int, p: int, h: int) returns (lo': int)
    requires h >= 1 && p >= 1 && 0 <= lo < p && n == hi * p + lo
    ensures p * h >= 1
    ensures (n % (p * h)) / p == hi % h
    ensures 0 <= lo' < p * h && n - hi % h == (hi / h) * (p * h) + lo'
  {
    var q := hi / h;
    var r := hi % h;
    PlaceValue(hi, lo, p, h);
    DivUnique(n, p * h, q, r * p + lo);
    DivUnique(r * p + lo, p, r, lo);
    lo' := r * p + lo - r;
  }

  /**
   * Subtracting only the digit, not the digit times its place value, leaves
   * the high part alone: from n = hi * p + lo with lo < p the loop yields
   * the base-h digits of hi.
   */
  lemma {:induction false} DigitsFromAreBaseDigits(n: int, hi: nat, lo: int, p: int, h: int, k: nat)
    requires h >= 1 && p >= 1 && 0 <= lo < p && n == hi * p + lo
    ensures n >= 0 && DigitsFrom(n, p * h, p, h, k) == BaseDigits(hi, h, k)
    decreases k
  {
    MulAtLeast(hi + 1, p);
    if k > 0 {
      var lo' := FirstDigit(n, hi, lo, p, h);
      var r := hi % h;
      DigitsFromAreBaseDigits(n - r, hi / h, lo', p * h, h, k - 1);
    }
  }

  /** Splitting hi * p + lo at place p * h: the low part holds digit hi % h at place p, above lo. */
  lemma PlaceValue(hi: nat, lo: int, p: int, h: int)
    requires h >= 1 && p >= 1 && 0 <= lo < p
    ensures hi * p + lo == (hi / h) * (p * h) + ((hi % h) * p + lo)
    ensures 0 <= (hi % h) * p + lo < p * h
    ensures 0 <= (hi % h) * p + lo - hi % h < p * h
  {
    var q := hi / h;
    var r := hi % h;
    assert hi == q * h + r;
    calc {
      hi * p;
      (q * h + r) * p;
      q * h * p + r * p;
      q * (p * h) + r * p;
    }
    assert 0 <= r <= h - 1;
    assert r * p <= (h - 1) * p by {
      if r < h - 1 {
        MulAtLeast(h - 1 - r, p);
        assert (h - 1) * p - r * p == (h - 1 - r) * p;
      }
    }
    assert (h - 1) * p + p == h * p;
    assert r * p >= r by {
      if r > 0 {
        MulAtLeast(p, r);
      }
    }
  }

  /** The seed's digits are its base-height digits, least significant first. */
  lemma DigitsAreBaseDigits(width: int, height: int)
    requires ValidShape(width, height)
    ensures Digits(width, height) == BaseDigits(SEED, height, width)
  {
    DigitsFromAreBaseDigits(SEED, SEED, 0, 1, height, width);
  }

  /**
   * One iteration of the digit loop: append the digit to the ones found so
   * far and advance the loop state. The digits found so far followed by
   * those still to come make up the same sequence before and after.
   */
  method DigitLoopStep(ds: seq<int>, n: int, d: int, ld: int, h: int, ghost k: nat, ghost all: seq<int>)
    returns (ds': seq<int>, n': int, d': int, ld': int)
    requires n >= 0 && ld >= 1 && h >= 1 && d == ld * h && k >= 1
    requires ds + DigitsFrom(n, d, ld, h, k) == all
    ensures n' >= 0 && ld' >= 1 && d' == ld' * h
    ensures ds' + DigitsFrom(n', d', ld', h, k - 1) == all
    ensures |ds'| == |ds| + 1
  {
    var x := (n % d) / ld;
    DigitStep(n, d, ld, h);
    ghost var rest := DigitsFrom(n - x, d * h, ld * h, h, k - 1);
    assert ds + ([x] + rest) == all;
    ds' := ds + [x];
    assert ds' + rest == ds + ([x] + rest);
    n' := n - x;
    d' := d * h;
    ld' := ld * h;
  }

  /**
   * The digit loop of `getName` and `showNameHistogram`, as the C code runs
   * it. Each iteration's digit depends only on the loop state, never on
   * what the iteration writes, so both operations are modelled as this loop
   * followed by their writes.
   */
  method ComputeDigits(width: int, height: int) returns (ds: seq<int>)
    requires ValidShape(width, height)
    ensures ds == Digits(width, height)
  {
    ghost var all := Digits(width, height);
    ds := [];
    var n := SEED;
    var ld := 1;
    var d := height;
    var i := 0;
    assert ds + DigitsFrom(n, d, ld, height, width - i) == all;
    while i < width
      invariant 0 <= i <= width && |ds| == i
      invariant n >= 0 && ld >= 1 && d == ld * height
      invariant ds + DigitsFrom(n, d, ld, height, width - i) == all
    {
      ds, n, d, ld := DigitLoopStep(ds, n, d, ld, height, width - i, all);
      i := i + 1;
    }
    assert ds + [] == ds;
  }

  // ---------------------------------------------------------------------
  // Name
  // ---------------------------------------------------------------------

  /** The name `getName` writes: digit i picks from codebook row i, placed right to left. */
  function NameOf(width: int, height: int): (s: string)
    requires ValidShape(width, height)
    ensures |s| == width
  {
    var ds := Digits(width, height);
    seq(width, k requires 0 <= k < width => Letter(width - 1 - k, ds[width - 1 - k]))
  }

  predicate IsConsonant(ch: char)
  {
    ch in CONSONANTS
  }

  /** The letter for digit value j in position i: the rows alternate between consonants and vowels. */
  function Letter(i: int, j: int): char
    requires 0 <= i < 5 && 0 <= j < 5
  {
    if i == 0 || i == 2 || i == 4 then CONSONANTS[j] else VOWELS[j]
  }

  /** `Letter` reads the codebook table. */
  lemma LetterIsCodebook(i: int, j: int)
    requires 0 <= i < 5 && 0 <= j < 5
    ensures |CODEBOOK| == 5 && |CODEBOOK[i]| == 5 && Letter(i, j) == CODEBOOK[i][j]
  {
  }

  lemma CodebookRows(i: int, j: int)
    requires 0 <= i < 5 && 0 <= j < 5
    ensures IsConsonant(Letter(i, j)) <==> i % 2 == 0
  {
  }

  /**
   * `getName`: fill `name[0..width)` from the right, digit i giving the
   * letter at position width-1-i, and return width. Nothing past `width` is
   * touched.
   */
  method GetName(buf: seq<char>, width: int, height: int) returns (name: seq<char>, count: int)
    requires ValidShape(width, height) && |buf| >= width
    ensures count == width && |name| == |buf|
    ensures name[..width] == NameOf(width, height)
    ensures name[width..] == buf[width..]
  {
    var ds := ComputeDigits(width, height);
    ghost var expected := NameOf(width, height);
    name := buf;
    var i := 0;
    while i < width
      invariant 0 <= i <= width
      invariant |name| == |buf| && name[width..] == buf[width..]
      invariant forall k :: width - i <= k < width ==> name[k] == expected[k]
    {
      name := name[width - 1 - i := Letter(i, ds[i])];
      i := i + 1;
    }
    count := width;
    assert name[..width] == expected;
  }

  /** The name alternates consonant and vowel and ends in a consonant, whatever the digits. */
  lemma NameAlternates(width: int, height: int)
    requires ValidShape(width, height)
    ensures forall k :: 0 <= k < width ==> (IsConsonant(NameOf(width, height)[k]) <==> (width - 1 - k) % 2 == 0)
  {
    forall k | 0 <= k < width
      ensures IsConsonant(NameOf(width, height)[k]) <==> (width - 1 - k) % 2 == 0
    {
      CodebookRows(width - 1 - k, Digits(width, height)[width - 1 - k]);
    }
  }

  // ---------------------------------------------------------------------
  // Histogram
  // ---------------------------------------------------------------------

  /** Column x shows digit width-1-x as a bar of digit+1 pixels standing on the bottom row. */
  predicate HistogramLit(ds: seq<int>, width: int, height: int, p: Point)
    requires |ds| == width
  {
    0 <= p.x < width && height - 1 - ds[width - 1 - p.x] <= p.y <= height - 1
  }

  /** The inner loop of `showNameHistogram`: column x gets a bar of h+1 pixels up from the bottom row. */
  method DrawBar(writes: seq<Point>, x: int, h: int, width: int, height: int) returns (writes': seq<Point>)
    requires 0 <= x < width && 0 <= h < height
    requires forall k :: 0 <= k < |writes| ==> 0 <= writes[k].x < width && 0 <= writes[k].y < height
    ensures forall p :: p in writes' <==> p in writes || (p.x == x && height - 1 - h <= p.y <= height - 1)
    ensures forall k :: 0 <= k < |writes'| ==> 0 <= writes'[k].x < width && 0 <= writes'[k].y < height
  {
    writes' := writes;
    var j := 0;
    while j < h + 1
      invariant 0 <= j <= h + 1
      invariant forall p :: p in writes' <==> p in writes || (p.x == x && height - j <= p.y <= height - 1)
      invariant forall k :: 0 <= k < |writes'| ==> 0 <= writes'[k].x < width && 0 <= writes'[k].y < height
    {
      writes' := writes' + [Point(x, height - j - 1)];
      j := j + 1;
    }
  }

  /**
   * `showNameHistogram`: the pixels set, in the order they are set. Exactly
   * the histogram's pixels are set, each column's bar bottom-aligned.
   */
  method ShowNameHistogram(width: int, height: int) returns (writes: seq<Point>)
    requires ValidShape(width, height)
    ensures forall p :: p in writes <==> HistogramLit(Digits(width, height), width, height, p)
    ensures forall k :: 0 <= k < |writes| ==> 0 <= writes[k].x < width && 0 <= writes[k].y < height
  {
    var ds := ComputeDigits(width, height);
    writes := [];
    var i := 0;
    while i < width
      invariant 0 <= i <= width
      invariant forall p :: p in writes <==> width - i <= p.x < width && HistogramLit(ds, width, height, p)
      invariant forall k :: 0 <= k < |writes| ==> 0 <= writes[k].x < width && 0 <= writes[k].y < height
    {
      writes := DrawBar(writes, width - i - 1, ds[i], width, height);
      i := i + 1;
    }
  }

  // ---------------------------------------------------------------------
  // Pairing and authentication flags
  // ---------------------------------------------------------------------

  datatype Pairing = Pairing(authenticated: bool, flashCodeRequested: bool, flashCode: int)

  /** The characteristic a write targets. */
  datatype Handle = ControlPoint | FlashCodePoint | OtherHandle

  /** A characteristic write: the target and the bytes written (its length is the write's length). */
  datatype Write = Write(handle: Handle, data: seq<int>)

  /** The control-point opcodes, defined outside the modelled file. */
  datatype Opcodes = Opcodes(startDfu: int, startPair: int)

  /** The flags after a write, and whether the write started the bootloader. */
  datatype WriteResult = WriteResult(state: Pairing, bootloader: bool)

  predicate IsByte(x: int)
  {
    0 <= x < 256
  }

  /** The constructor: nothing requested, nothing authenticated, no code. */
  const NewService: Pairing := Pairing(false, false, 0)

  /** The first four bytes read as an unsigned 32-bit little-endian number, as `memcpy` into a `uint32_t` does on the target. */
  function LockCode(data: seq<int>): (v: int)
    requires |data| >= 4 && forall i :: 0 <= i < 4 ==> IsByte(data[i])
    ensures 0 <= v < 0x1_0000_0000
  {
    assert IsByte(data[0]) && IsByte(data[1]) && IsByte(data[2]) && IsByte(data[3]);
    data[0] + 0x100 * data[1] + 0x1_0000 * data[2] + 0x100_0000 * data[3]
  }

  /**
   * `onDataWritten`. A control write of at least one byte either starts the
   * bootloader (START_DFU, only when authenticated) or requests the flash
   * code (START_PAIR); other opcodes and empty writes do nothing. A
   * flash-code write of at least four bytes authenticates exactly when
   * they hold the flash code; shorter ones do nothing.
   */
  function OnDataWritten(ops: Opcodes, s: Pairing, w: Write): (r: WriteResult)
    requires ops.startDfu != ops.startPair
    requires forall i :: 0 <= i < |w.data| ==> IsByte(w.data[i])
    ensures r.bootloader <==>
      w.handle == ControlPoint && |w.data| >= 1 && w.data[0] == ops.startDfu && s.authenticated
    ensures r.state.flashCode == s.flashCode
    ensures r.state.flashCodeRequested <==>
      s.flashCodeRequested || (w.handle == ControlPoint && |w.data| >= 1 && w.data[0] == ops.startPair)
    ensures w.handle == FlashCodePoint && |w.data| >= 4 ==>
      (r.state.authenticated <==> LockCode(w.data) == FLASH_CODE)
    ensures !(w.handle == FlashCodePoint && |w.data| >= 4) ==> r.state.authenticated == s.authenticated
  {
    match w.handle
    case ControlPoint =>
      if |w.data| < 1 then WriteResult(s, false)
      else if w.data[0] == ops.startDfu then WriteResult(s, s.authenticated)
      else if w.data[0] == ops.startPair then WriteResult(s.(flashCodeRequested := true), false)
      else WriteResult(s, false)
    case FlashCodePoint =>
      if |w.data| >= 4 then
        WriteResult(s.(authenticated := LockCode(w.data) == FLASH_CODE), false)
      else
        WriteResult(s, false)
    case OtherHandle =>
      WriteResult(s, false)
  }

  /** `releaseFlashCode`: set the `flashCode` member to 0xcafe. */
  function ReleaseFlashCode(s: Pairing): (r: Pairing)
    ensures r.flashCode == FLASH_CODE
    ensures r.authenticated == s.authenticated && r.flashCodeRequested == s.flashCodeRequested
  {
    s.(flashCode := FLASH_CODE)
  }

  /**
   * One poll of the pairing loop while the flash code is requested: a
   * press of the left button releases the code, clears the request and
   * authenticates the peer. Without a request, or without a press, nothing
   * changes.
   */
  function Confirm(s: Pairing, leftPressed: bool): (r: Pairing)
    ensures s.flashCodeRequested && leftPressed ==>
      r.authenticated && !r.flashCodeRequested && r.flashCode == FLASH_CODE
    ensures !(s.flashCodeRequested && leftPressed) ==> r == s
  {
    if s.flashCodeRequested && leftPressed then
      ReleaseFlashCode(s).(flashCodeRequested := false, authenticated := true)
    else
      s
  }

  /**
   * The disconnect rule of the pairing loop, as written: when a flag is set
   * and the peer is gone, both flags and the flash code are cleared.
   */
  function Disconnect(s: Pairing, connected: bool): (r: Pairing)
    ensures (s.authenticated || s.flashCodeRequested) && !connected ==> r == NewService
    ensures !((s.authenticated || s.flashCodeRequested) && !connected) ==> r == s
  {
    if (s.authenticated || s.flashCodeRequested) && !connected then
      s.(authenticated := false, flashCodeRequested := false, flashCode := 0)
    else
      s
  }

  /** The disconnect rule as its comment states it: a departed peer leaves no state behind. */
  function DisconnectFixed(s: Pairing, connected: bool): (r: Pairing)
    ensures !connected ==> r == NewService
    ensures connected ==> r == s
  {
    if !connected then NewService else s
  }
}
