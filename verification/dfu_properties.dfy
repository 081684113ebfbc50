/**
 * Properties of the firmware-update service's pairing helpers: the name and
 * the histogram show the same digits, the name can be read back into them,
 * and over any interleaving of peer writes and pairing-loop polls the
 * bootloader only starts for a peer that proved itself.
 */
module DfuProperties {
  import opened Base
  import opened Display
  import opened DfuService

  // ---------------------------------------------------------------------
  // Name and histogram
  // ---------------------------------------------------------------------

  /** For a 5-by-5 histogram the seed 0xbabe = 47806 has the base-5 digits 1, 1, 2, 2, 1. */
  lemma SeedDigitsExample()
    ensures Digits(5, 5) == [1, 1, 2, 2, 1]
  {
    DigitsAreBaseDigits(5, 5);
    assert BaseDigits(76, 5, 1) == [1];
    assert BaseDigits(382, 5, 2) == [2, 1];
    assert BaseDigits(1912, 5, 3) == [2, 2, 1];
    assert BaseDigits(9561, 5, 4) == [1, 2, 2, 1];
    assert BaseDigits(47806, 5, 5) == [1, 1, 2, 2, 1];
  }

  /** The name for those digits is "vigov": consonant, vowel, consonant, vowel, consonant, last digit first. */
  lemma SeedNameExample()
    ensures NameOf(5, 5) == "vigov"
  {
    SeedDigitsExample();
    var s := NameOf(5, 5);
    assert s[0] == Letter(4, 1) == 'v';
    assert s[1] == Letter(3, 2) == 'i';
    assert s[2] == Letter(2, 2) == 'g';
    assert s[3] == Letter(1, 1) == 'o';
    assert s[4] == Letter(0, 1) == 'v';
  }

  /**
   * Column k of the histogram and letter k of the name show the same
   * digit: the letter is that digit's entry in its codebook row, and the
   * bar in column k rises from the bottom row exactly to the row the digit
   * gives.
   */
  lemma NameMatchesHistogram(width: int, height: int, k: int)
    requires ValidShape(width, height) && 0 <= k < width
    ensures var ds := Digits(width, height);
      var digit := ds[width - 1 - k];
      && NameOf(width, height)[k] == Letter(width - 1 - k, digit)
      && HistogramLit(ds, width, height, Point(k, height - 1 - digit))
      && HistogramLit(ds, width, height, Point(k, height - 1))
      && !HistogramLit(ds, width, height, Point(k, height - 2 - digit))
  {
  }

  /** Position of `ch` in `row`, or -1 when it does not occur. */
  function IndexIn(row: string, ch: char): (k: int)
    ensures -1 <= k < |row|
    ensures k >= 0 ==> row[k] == ch && forall i :: 0 <= i < k ==> row[i] != ch
    ensures k == -1 ==> ch !in row
  {
    if |row| == 0 then -1
    else if row[0] == ch then 0
    else
      var k := IndexIn(row[1..], ch);
      if k == -1 then -1 else k + 1
  }

  /** A letter's codebook row, for the digit it encodes in position i. */
  function RowOf(i: int): string
  {
    if i % 2 == 0 then CONSONANTS else VOWELS
  }

  /** Read a name back into digits: letter k encodes digit |name|-1-k in the codebook row of that position. */
  function DecodeName(name: string): (ds: seq<int>)
    ensures |ds| == |name|
  {
    seq(|name|, i requires 0 <= i < |name| => IndexIn(RowOf(i), name[|name| - 1 - i]))
  }

  /** Each codebook row lists five different letters, so the letter for position i determines the digit. */
  lemma LetterDecodes(i: int, j: int)
    requires 0 <= i < 5 && 0 <= j < 5
    ensures IndexIn(RowOf(i), Letter(i, j)) == j
  {
    var row := RowOf(i);
    assert row == CONSONANTS || row == VOWELS;
    assert forall a, b :: 0 <= a < b < 5 ==> row[a] != row[b];
    assert row[j] == Letter(i, j);
  }

  /** The name round-trips: reading it back gives the digits it was built from. */
  lemma NameDecodes(width: int, height: int)
    requires ValidShape(width, height)
    ensures DecodeName(NameOf(width, height)) == Digits(width, height)
  {
    var name := NameOf(width, height);
    var ds := Digits(width, height);
    forall i | 0 <= i < width
      ensures DecodeName(name)[i] == ds[i]
    {
      assert name[width - 1 - i] == Letter(i, ds[i]);
      LetterDecodes(i, ds[i]);
    }
  }

  // ---------------------------------------------------------------------
  // Single writes
  // ---------------------------------------------------------------------

  /** A flash-code write authenticates exactly when its first four bytes are FE CA 00 00, the code in little-endian order. */
  lemma LockCodeBytes(data: seq<int>)
    requires |data| >= 4 && forall i :: 0 <= i < 4 ==> IsByte(data[i])
    ensures LockCode(data) == FLASH_CODE <==> data[..4] == [0xfe, 0xca, 0x00, 0x00]
  {
    assert IsByte(data[0]) && IsByte(data[1]) && IsByte(data[2]) && IsByte(data[3]);
    if data[..4] == [0xfe, 0xca, 0x00, 0x00] {
      assert data[0] == 0xfe && data[1] == 0xca && data[2] == 0 && data[3] == 0;
    }
    if LockCode(data) == FLASH_CODE {
      assert data[3] == 0;
      assert data[2] == 0;
      assert data[1] == 0xca;
      assert data[..4] == [data[0], data[1], data[2], data[3]];
    }
  }

  /** An empty control write, a short flash-code write and a write to any other characteristic change nothing. */
  lemma IgnoredWrites(ops: Opcodes, s: Pairing, data: seq<int>)
    requires ops.startDfu != ops.startPair
    requires |data| < 4 && forall i :: 0 <= i < |data| ==> IsByte(data[i])
    ensures OnDataWritten(ops, s, Write(ControlPoint, [])) == WriteResult(s, false)
    ensures OnDataWritten(ops, s, Write(FlashCodePoint, data)) == WriteResult(s, false)
    ensures OnDataWritten(ops, s, Write(OtherHandle, data)) == WriteResult(s, false)
  {
  }

  /** From a new service a flash-code write of the code alone authenticates, with no pairing request or button press. */
  lemma CodeWriteAloneAuthenticates(ops: Opcodes)
    requires ops.startDfu != ops.startPair
    ensures var r := OnDataWritten(ops, NewService, Write(FlashCodePoint, [0xfe, 0xca, 0x00, 0x00]));
      r.state.authenticated && !r.state.flashCodeRequested && !r.bootloader
  {
    var data := [0xfe, 0xca, 0x00, 0x00];
    LockCodeBytes(data);
    assert data[..4] == data;
  }

  // ---------------------------------------------------------------------
  // Runs of writes and polls
  // ---------------------------------------------------------------------

  /**
   * What can happen to the service: a characteristic write from the peer,
   * or one poll of the pairing loop, which reads the left button while the
   * flash code is requested and then checks the connection.
   */
  datatype Action = DataWritten(w: Write) | Poll(leftPressed: bool, connected: bool)

  predicate ValidAction(a: Action)
  {
    a.DataWritten? ==> forall i :: 0 <= i < |a.w.data| ==> IsByte(a.w.data[i])
  }

  predicate ValidActions(acts: seq<Action>)
  {
    forall i :: 0 <= i < |acts| ==> ValidAction(acts[i])
  }

  /** The disconnect rule a poll applies: as written, or as its comment states it. */
  function DisconnectBy(asWritten: bool, s: Pairing, connected: bool): Pairing
  {
    if asWritten then Disconnect(s, connected) else DisconnectFixed(s, connected)
  }

  /** One action. A poll is the confirmation check followed by the disconnect check; it never starts the bootloader. */
  function Apply(ops: Opcodes, asWritten: bool, s: Pairing, a: Action): (r: WriteResult)
    requires ops.startDfu != ops.startPair && ValidAction(a)
    ensures a.Poll? ==> !r.bootloader
  {
    match a
    case DataWritten(w) => OnDataWritten(ops, s, w)
    case Poll(leftPressed, connected) => WriteResult(DisconnectBy(asWritten, Confirm(s, leftPressed), connected), false)
  }

  /** The flags after a run of actions from a new service. */
  function RunActions(ops: Opcodes, asWritten: bool, acts: seq<Action>): Pairing
    requires ops.startDfu != ops.startPair && ValidActions(acts)
    decreases |acts|
  {
    if |acts| == 0 then NewService
    else Apply(ops, asWritten, RunActions(ops, asWritten, acts[..|acts| - 1]), acts[|acts| - 1]).state
  }

  /** A START_PAIR control write. */
  predicate IsStartPair(ops: Opcodes, a: Action)
  {
    a.DataWritten? && a.w.handle == ControlPoint && |a.w.data| >= 1 && a.w.data[0] == ops.startPair
  }

  /** A flash-code write of at least four bytes holding the flash code. */
  predicate IsCodeProof(a: Action)
  {
    && a.DataWritten? && a.w.handle == FlashCodePoint && |a.w.data| >= 4
    && (forall i :: 0 <= i < 4 ==> IsByte(a.w.data[i]))
    && LockCode(a.w.data) == FLASH_CODE
  }

  /** A poll that saw the left button pressed. */
  predicate IsPress(a: Action)
  {
    a.Poll? && a.leftPressed
  }

  /** A peer proved itself at step i: by writing the code, or by the user pressing the button after some earlier pairing request. */
  predicate ProofAt(ops: Opcodes, acts: seq<Action>, i: int)
    requires 0 <= i < |acts|
  {
    IsCodeProof(acts[i]) || (IsPress(acts[i]) && exists j :: 0 <= j < i && IsStartPair(ops, acts[j]))
  }

  /** The flash code is requested only after a START_PAIR write. */
  lemma {:induction false} RequestNeedsStartPair(ops: Opcodes, asWritten: bool, acts: seq<Action>)
    requires ops.startDfu != ops.startPair && ValidActions(acts)
    ensures RunActions(ops, asWritten, acts).flashCodeRequested ==>
      exists j :: 0 <= j < |acts| && IsStartPair(ops, acts[j])
    decreases |acts|
  {
    if |acts| > 0 {
      var prefix := acts[..|acts| - 1];
      var a := acts[|acts| - 1];
      assert ValidActions(prefix) by {
        forall i | 0 <= i < |prefix| ensures ValidAction(prefix[i]) {
          assert prefix[i] == acts[i];
        }
      }
      RequestNeedsStartPair(ops, asWritten, prefix);
      var s := RunActions(ops, asWritten, prefix);
      if RunActions(ops, asWritten, acts).flashCodeRequested {
        if s.flashCodeRequested {
          var j :| 0 <= j < |prefix| && IsStartPair(ops, prefix[j]);
          assert acts[j] == prefix[j];
        } else {
          assert IsStartPair(ops, acts[|acts| - 1]);
        }
      }
    }
  }

  /**
   * The peer is authenticated only after it proved itself, under either
   * disconnect rule: some earlier action wrote the flash code, or pressed
   * the button after a pairing request.
   */
  lemma {:induction false} AuthenticatedNeedsProof(ops: Opcodes, asWritten: bool, acts: seq<Action>)
    requires ops.startDfu != ops.startPair && ValidActions(acts)
    ensures RunActions(ops, asWritten, acts).authenticated ==>
      exists i :: 0 <= i < |acts| && ProofAt(ops, acts, i)
    decreases |acts|
  {
    if |acts| > 0 {
      var n := |acts| - 1;
      var prefix := acts[..n];
      var a := acts[n];
      assert ValidActions(prefix) by {
        forall i | 0 <= i < |prefix| ensures ValidAction(prefix[i]) {
          assert prefix[i] == acts[i];
        }
      }
      AuthenticatedNeedsProof(ops, asWritten, prefix);
      RequestNeedsStartPair(ops, asWritten, prefix);
      var s := RunActions(ops, asWritten, prefix);
      if RunActions(ops, asWritten, acts).authenticated {
        if a.DataWritten? && a.w.handle == FlashCodePoint && |a.w.data| >= 4 {
          assert IsCodeProof(a);
          assert ProofAt(ops, acts, n);
        } else if s.authenticated {
          var i :| 0 <= i < |prefix| && ProofAt(ops, prefix, i);
          assert acts[i] == prefix[i];
          if !IsCodeProof(prefix[i]) {
            var j :| 0 <= j < i && IsStartPair(ops, prefix[j]);
            assert acts[j] == prefix[j];
          }
          assert ProofAt(ops, acts, i);
        } else {
          assert IsPress(a) && s.flashCodeRequested;
          var j :| 0 <= j < |prefix| && IsStartPair(ops, prefix[j]);
          assert acts[j] == prefix[j];
          assert ProofAt(ops, acts, n);
        }
      }
    }
  }

  /** A write starts the bootloader only if some earlier action proved the peer, under either disconnect rule. */
  lemma BootloaderNeedsProof(ops: Opcodes, asWritten: bool, acts: seq<Action>, a: Action)
    requires ops.startDfu != ops.startPair && ValidActions(acts) && ValidAction(a)
    ensures Apply(ops, asWritten, RunActions(ops, asWritten, acts), a).bootloader ==>
      exists i :: 0 <= i < |acts| && ProofAt(ops, acts, i)
  {
    AuthenticatedNeedsProof(ops, asWritten, acts);
  }

  /** Only a confirming press sets the `flashCode` member: without one it stays zero. */
  lemma {:induction false} CodeNeedsPress(ops: Opcodes, asWritten: bool, acts: seq<Action>)
    requires ops.startDfu != ops.startPair && ValidActions(acts)
    requires forall i :: 0 <= i < |acts| ==> !IsPress(acts[i])
    ensures RunActions(ops, asWritten, acts).flashCode == 0
    decreases |acts|
  {
    if |acts| > 0 {
      var prefix := acts[..|acts| - 1];
      assert ValidActions(prefix) && forall i :: 0 <= i < |prefix| ==> !IsPress(prefix[i]) by {
        forall i | 0 <= i < |prefix| ensures ValidAction(prefix[i]) && !IsPress(prefix[i]) {
          assert prefix[i] == acts[i];
        }
      }
      CodeNeedsPress(ops, asWritten, prefix);
    }
  }

  // ---------------------------------------------------------------------
  // The disconnect rule
  // ---------------------------------------------------------------------

  /** Running one more action is applying it to where the run left off. */
  lemma RunSnoc(ops: Opcodes, asWritten: bool, acts: seq<Action>, a: Action)
    requires ops.startDfu != ops.startPair && ValidActions(acts) && ValidAction(a)
    ensures ValidActions(acts + [a])
    ensures RunActions(ops, asWritten, acts + [a]) == Apply(ops, asWritten, RunActions(ops, asWritten, acts), a).state
  {
    var all := acts + [a];
    assert all[..|all| - 1] == acts;
    assert ValidActions(all) by {
      forall i | 0 <= i < |all| ensures ValidAction(all[i]) {
        if i < |acts| {
          assert all[i] == acts[i];
        }
      }
    }
  }

  /** A pairing run: request, confirm by button, a wrong code written, then the peer disconnects. */
  function StaleCodeRun(ops: Opcodes): seq<Action>
  {
    [ DataWritten(Write(ControlPoint, [ops.startPair]))
    , Poll(true, true)
    , DataWritten(Write(FlashCodePoint, [0, 0, 0, 0]))
    , Poll(false, false) ]
  }

  /**
   * As written, the disconnect rule leaves the released flash code behind
   * when the flags are already clear: after this run the peer is gone, yet
   * the service still holds 0xcafe, where "drop all state" means a new
   * service.
   */
  lemma DisconnectKeepsCode(ops: Opcodes)
    requires ops.startDfu != ops.startPair && IsByte(ops.startPair)
    ensures ValidActions(StaleCodeRun(ops))
    ensures RunActions(ops, true, StaleCodeRun(ops)) == Pairing(false, false, FLASH_CODE)
    ensures RunActions(ops, true, StaleCodeRun(ops)) != NewService
  {
    var acts := StaleCodeRun(ops);
    assert ValidAction(acts[0]) && ValidAction(acts[2]);
    RunSnoc(ops, true, [], acts[0]);
    assert [] + [acts[0]] == acts[..1];
    RunSnoc(ops, true, acts[..1], acts[1]);
    assert acts[..1] + [acts[1]] == acts[..2];
    RunSnoc(ops, true, acts[..2], acts[2]);
    assert acts[..2] + [acts[2]] == acts[..3];
    RunSnoc(ops, true, acts[..3], acts[3]);
    assert acts[..3] + [acts[3]] == acts;
    assert RunActions(ops, true, acts[..1]) == Pairing(false, true, 0);
    assert RunActions(ops, true, acts[..2]) == Pairing(true, false, FLASH_CODE);
    assert LockCode([0, 0, 0, 0]) == 0;
    assert RunActions(ops, true, acts[..3]) == Pairing(false, false, FLASH_CODE);
  }

  /** With the corrected rule, every poll that finds the peer gone leaves a new service, whatever came before. */
  lemma DisconnectClearsAll(ops: Opcodes, acts: seq<Action>, leftPressed: bool)
    requires ops.startDfu != ops.startPair && ValidActions(acts)
    ensures ValidActions(acts + [Poll(leftPressed, false)])
    ensures RunActions(ops, false, acts + [Poll(leftPressed, false)]) == NewService
  {
    RunSnoc(ops, false, acts, Poll(leftPressed, false));
  }

  /** The two rules agree whenever a flag is set or the peer is still connected. */
  lemma DisconnectRulesAgree(s: Pairing, connected: bool)
    ensures s.authenticated || s.flashCodeRequested || connected ==>
      Disconnect(s, connected) == DisconnectFixed(s, connected)
  {
  }
}
