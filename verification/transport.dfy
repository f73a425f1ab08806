/** Reading request frames from standard input.

    Both reads of a frame go through `fgets`, which is line oriented: it
    returns at most the requested number of bytes but stops early right after
    a newline byte. The model keeps that behaviour, including what it does to
    frames whose bytes happen to contain 0x0A. */
module Transport {
  import opened Octets

  /** `k` is where `fgets` asked for at most `max` bytes stops in `input`:
      it takes no more than `max` bytes, no more than there are, passes no
      newline, and stops short of both limits only right after a newline. */
  ghost predicate FgetsStop(input: Bytes, max: nat, k: nat)
  {
    && k <= max
    && k <= |input|
    && (forall i :: 0 <= i < k - 1 ==> input[i] != NEWLINE)
    && (k == max || k == |input| || (0 < k && input[k - 1] == NEWLINE))
  }

  /** `fgets($stream, max + 1)` on the remaining input: the bytes taken and
      the bytes left for the next read. At end of input nothing is taken
      (the PHP `false` result, which later string use turns into ""). */
  function ReadUpTo(input: Bytes, max: nat): (r: (Bytes, Bytes))
    ensures r.0 + r.1 == input
    ensures FgetsStop(input, max, |r.0|)
  {
    if max == 0 || |input| == 0 then ([], input)
    else if input[0] == NEWLINE then ([input[0]], input[1..])
    else
      var (taken, rest) := ReadUpTo(input[1..], max - 1);
      assert input == [input[0]] + input[1..];
      ([input[0]] + taken, rest)
  }

  /** The stopping rule of `fgets` determines the read: there is only one
      place where it can stop. */
  lemma FgetsStopUnique(input: Bytes, max: nat, j: nat, k: nat)
    requires FgetsStop(input, max, j)
    requires FgetsStop(input, max, k)
    ensures j == k
  {
  }

  /** ReadUpTo is the only split of the input that obeys the stopping rule. */
  lemma ReadUpToCharacterized(input: Bytes, max: nat, taken: Bytes, rest: Bytes)
    requires taken + rest == input
    requires FgetsStop(input, max, |taken|)
    ensures ReadUpTo(input, max) == (taken, rest)
  {
    var r := ReadUpTo(input, max);
    FgetsStopUnique(input, max, |r.0|, |taken|);
    assert r.0 == input[..|taken|] == taken;
    assert r.1 == input[|taken|..] == rest;
  }

  /** What one call of `read` ends in. */
  datatype ReadOutcome =
    | PipeBroken                          // RuntimeException: the loop ends
    | InvalidLength(rest: Bytes)          // UnexpectedValueException: the message is skipped
    | Frame(payload: Bytes, rest: Bytes)  // a payload, and the input after it

  /** What `feof` reports right after the header read: `fgets` ran out of
      input before it had two bytes or had passed a newline. A lone
      trailing newline is read without reaching the end. */
  predicate AtEnd(input: Bytes)
  {
    |input| == 0 || (|input| == 1 && input[0] != NEWLINE)
  }

  /** `AtEnd` is exactly when the header read consumes all of the input and
      stops neither at two bytes nor right after a newline. */
  lemma AtEndIsExhaustedRead(input: Bytes)
    ensures AtEnd(input) <==>
              var (header, rest) := ReadUpTo(input, 2);
              rest == [] && |header| < 2 && (header == [] || header[|header| - 1] != NEWLINE)
  {
    if |input| >= 2 {
      assert |ReadUpTo(input, 2).0| == 2 || ReadUpTo(input, 2).1 != [];
    }
  }

  /** `read`: a two-byte big-endian length, then at most that many payload
      bytes. A header read that reaches the end of input is a broken pipe.
      A header cut short by a newline in its first byte, or a length of
      zero, is an invalid length; the header bytes taken stay consumed. */
  function ReadFrame(input: Bytes): (r: ReadOutcome)
    ensures r.PipeBroken? <==> AtEnd(input)
    ensures |input| == 1 && input[0] == NEWLINE ==> r == InvalidLength([])
    ensures 2 <= |input| ==>
              (r.InvalidLength? <==> input[0] == NEWLINE || Unpack16(input[0], input[1]) == 0)
    ensures r.InvalidLength? && input[0] == NEWLINE ==> r.rest == input[1..]
    ensures r.InvalidLength? && input[0] != NEWLINE ==> r.rest == input[2..]
    ensures r.Frame? ==>
              && 2 <= |input|
              && input[0] != NEWLINE
              && 0 < Unpack16(input[0], input[1])
              && input == input[..2] + r.payload + r.rest
              && FgetsStop(input[2..], Unpack16(input[0], input[1]), |r.payload|)
    ensures !r.PipeBroken? ==> |r.rest| < |input| && r.rest == input[|input| - |r.rest|..]
  {
    if AtEnd(input) then PipeBroken
    else
      var (header, afterHeader) := ReadUpTo(input, 2);
      if |header| < 2 then InvalidLength(afterHeader)
      else
        var length := Unpack16(header[0], header[1]);
        if length == 0 then InvalidLength(afterHeader)
        else
          var (payload, rest) := ReadUpTo(afterHeader, length);
          assert header == input[..2];
          Frame(payload, rest)
  }

  /** The frame a well-behaved peer sends: the big-endian length, then the payload. */
  function EncodeFrame(payload: Bytes): (frame: Bytes)
    requires 0 < |payload| < 0x1_0000
    ensures |frame| == |payload| + 2
    ensures frame[2..] == payload
    ensures Unpack16(frame[0], frame[1]) == |payload|
  {
    Pack16(|payload|) + payload
  }

  /** The header of a frame whose first length byte is not 0x0A is read
      whole, leaving the payload and what follows it. */
  lemma HeaderRead(payload: Bytes, more: Bytes)
    requires 0 < |payload| < 0x1_0000
    requires |payload| / 256 != NEWLINE
    ensures ReadUpTo(EncodeFrame(payload) + more, 2) == (Pack16(|payload|), payload + more)
  {
    var input := EncodeFrame(payload) + more;
    assert input == Pack16(|payload|) + (payload + more);
    assert input[0] == |payload| / 256;
    ReadUpToCharacterized(input, 2, Pack16(|payload|), payload + more);
  }

  /** A frame whose first length byte is not 0x0A has its header read
      whole; the payload read then stops where `fgets` stops on the bytes
      after the header, given the declared length. */
  lemma ReadAfterHeader(payload: Bytes, more: Bytes, taken: Bytes, rest: Bytes)
    requires 0 < |payload| < 0x1_0000
    requires |payload| / 256 != NEWLINE
    requires taken + rest == payload + more
    requires FgetsStop(payload + more, |payload|, |taken|)
    ensures ReadFrame(EncodeFrame(payload) + more) == Frame(taken, rest)
  {
    HeaderRead(payload, more);
    ReadUpToCharacterized(payload + more, |payload|, taken, rest);
    var header := Pack16(|payload|);
    assert Unpack16(header[0], header[1]) == |payload|;
  }

  /** A payload without inner newlines, whose length does not start with a
      0x0A byte, is read back whole, and reading resumes right after it. */
  lemma FrameRoundTrip(payload: Bytes, more: Bytes)
    requires 0 < |payload| < 0x1_0000
    requires |payload| / 256 != NEWLINE
    requires forall i :: 0 <= i < |payload| - 1 ==> payload[i] != NEWLINE
    ensures ReadFrame(EncodeFrame(payload) + more) == Frame(payload, more)
  {
    ReadAfterHeader(payload, more, payload, more);
  }

  /** A newline inside the payload ends the payload read early; the bytes
      after it are left to be read as the next frame's header. */
  lemma EmbeddedNewlineCutsPayload(before: Bytes, after: Bytes, more: Bytes)
    requires 0 < |before| + 1 + |after| < 0x1_0000
    requires (|before| + 1 + |after|) / 256 != NEWLINE
    requires forall i :: 0 <= i < |before| ==> before[i] != NEWLINE
    requires after != []
    ensures ReadFrame(EncodeFrame(before + [NEWLINE] + after) + more)
            == Frame(before + [NEWLINE], after + more)
  {
    var payload := before + [NEWLINE] + after;
    var taken := before + [NEWLINE];
    assert payload + more == taken + (after + more);
    assert forall i :: 0 <= i < |before| ==> (payload + more)[i] == before[i];
    assert (payload + more)[|before|] == NEWLINE;
    ReadAfterHeader(payload, more, taken, after + more);
  }

  /** A payload of 2560 to 2815 bytes has 0x0A as the first length byte, so
      the header read stops after one byte and the frame is rejected as an
      invalid length; the second length byte is then read as the start of
      the next header. */
  lemma NewlineLengthByteRejectsFrame(payload: Bytes, more: Bytes)
    requires 0x0A00 <= |payload| < 0x0B00
    ensures ReadFrame(EncodeFrame(payload) + more)
            == InvalidLength((EncodeFrame(payload) + more)[1..])
  {
    var input := EncodeFrame(payload) + more;
    assert input[0] == NEWLINE;
  }

  /** A lone newline left at the end is not the end of input: the header
      read stops at it, the frame is an invalid length, and only the next
      read finds the pipe broken. */
  lemma TrailingNewline()
    ensures ReadFrame([NEWLINE]) == InvalidLength([])
    ensures ReadFrame([]) == PipeBroken
  {
    assert ReadUpTo([NEWLINE], 2) == ([NEWLINE], []);
  }
}
