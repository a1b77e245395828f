/** The script interpreter's link-level control in `main` (smatool.c): the
    `R` directive, which reads frames until one matches the frame the
    script describes (smatool.c:1451-1543), and the failure counter with its
    checkpoint, which sends the interpreter back to the last checkpoint
    label after a failure and ends the program once too many failures have
    been counted (smatool.c:1505-1521, 1935-1950, 2015-2030, 2095-2117). */
module Session {
  import opened Bytes
  import opened Link
  import opened Stream
  import opened Records

  // ---------------------------------------------------------------------
  // The R directive

  /** The test of smatool.c:1534, `memcmp(fl+4, received+4, cc-4) == 0`:
      the expected frame `expected` (the `cc` bytes of `fl`) and the buffer
      `received` agree on bytes 4 up to `cc`. */
  predicate ReplyMatches(expected: seq<bv8>, received: seq<bv8>)
    requires 4 <= |expected| <= |received|
  {
    expected[4..] == received[4..|expected|]
  }

  /** The match compares bytes 4..cc-1 one by one, and nothing else. */
  lemma ReplyMatchesPointwise(expected: seq<bv8>, received: seq<bv8>)
    requires 4 <= |expected| <= |received|
    ensures ReplyMatches(expected, received) <==> forall k :: 4 <= k < |expected| ==> expected[k] == received[k]
  {
    if forall k :: 4 <= k < |expected| ==> expected[k] == received[k] {
      assert forall k :: 0 <= k < |expected| - 4 ==> expected[4..][k] == received[4..|expected|][k];
    }
  }

  /** Neither the first four bytes (start byte, length byte, companion
      byte, and byte 2 of the header) nor anything past `cc` in `received`,
      such as the bytes a shorter previous frame left, takes part. */
  lemma ReplyIgnoresRest(expected: seq<bv8>, received: seq<bv8>, expected': seq<bv8>, received': seq<bv8>)
    requires 4 <= |expected| <= |received| && |expected'| == |expected| && |received'| >= |expected|
    requires forall k :: 4 <= k < |expected| ==> expected[k] == expected'[k] && received[k] == received'[k]
    ensures ReplyMatches(expected, received) <==> ReplyMatches(expected', received')
  {
    ReplyMatchesPointwise(expected, received);
    ReplyMatchesPointwise(expected', received');
  }

  /** How the wait for a reply ends: a matching frame, a failed read
      (read_bluetooth returned -1), an echo of our own frame (abort() in
      read_bluetooth), or no more frames in the input given. */
  datatype Outcome = Found | ReadFailed | EchoAborted | NoReply

  /** The ending, the number of reads it took, and the buffer after them. */
  datatype Wait = Wait(outcome: Outcome, tries: nat, received: seq<bv8>)

  /** The same ending after `n` more reads before it. */
  function After(n: nat, w: Wait): Wait
  {
    w.(tries := w.tries + n)
  }

  /** The read loop of the `R` directive (smatool.c:1503-1541): read a
      frame into `received`, stop on a failed read, and otherwise stop once
      the buffer matches. Each read is passed `cc` (the expected frame's
      length) for its echo test. */
  function WaitFor(expected: seq<bv8>, inputs: seq<LinkInput>, received: seq<bv8>, lastSent: seq<bv8>): (w: Wait)
    requires 4 <= |expected| <= BufferSize
    requires |received| == BufferSize && AllWellFormed(inputs)
    ensures |w.received| == BufferSize
    decreases |inputs|
  {
    if |inputs| == 0 then Wait(NoReply, 0, received)
    else
      var r := LinkRead(inputs[0], received, |expected|, lastSent);
      if r.status == TimedOut then Wait(ReadFailed, 1, r.received)
      else if r.status == EchoAbort then Wait(EchoAborted, 1, r.received)
      else if ReplyMatches(expected, r.received) then Wait(Found, 1, r.received)
      else After(1, WaitFor(expected, inputs[1..], r.received, lastSent))
  }

  /** The read loop itself, on the buffer `received`. */
  method WaitForReply(expected: seq<bv8>, inputs: seq<LinkInput>, received: array<bv8>, lastSent: seq<bv8>)
    returns (outcome: Outcome, tries: nat)
    requires 4 <= |expected| <= BufferSize
    requires received.Length == BufferSize && AllWellFormed(inputs)
    modifies received
    ensures Wait(outcome, tries, received[..]) == WaitFor(expected, inputs, old(received[..]), lastSent)
  {
    ghost var whole := WaitFor(expected, inputs, received[..], lastSent);
    tries := 0;
    while tries < |inputs|
      invariant 0 <= tries <= |inputs|
      invariant whole == After(tries, WaitFor(expected, inputs[tries..], received[..], lastSent))
    {
      ghost var rest := inputs[tries..];
      assert rest[0] == inputs[tries] && rest[1..] == inputs[tries + 1..];
      var status, rr, terminated := ReadBluetooth(inputs[tries], received, |expected|, lastSent);
      tries := tries + 1;
      if status == TimedOut {
        return ReadFailed, tries;
      }
      if status == EchoAbort {
        return EchoAborted, tries;
      }
      if received[4..|expected|] == expected[4..] {
        return Found, tries;
      }
    }
    assert inputs[tries..] == [];
    outcome := NoReply;
  }

  /** The wait ends with the buffer holding a matching frame, or at the
      first read that fails, or (only) once every input has been read
      without either. */
  lemma {:induction false} WaitEndsAtFirst(expected: seq<bv8>, inputs: seq<LinkInput>, received: seq<bv8>, lastSent: seq<bv8>)
    requires 4 <= |expected| <= BufferSize
    requires |received| == BufferSize && AllWellFormed(inputs)
    ensures var w := WaitFor(expected, inputs, received, lastSent);
      && w.tries <= |inputs|
      && (w.outcome == Found ==> ReplyMatches(expected, w.received))
      && (w.outcome == NoReply <==> w.tries == |inputs| && !Ends(expected, inputs, received, lastSent))
    decreases |inputs|
  {
    if |inputs| > 0 {
      var r := LinkRead(inputs[0], received, |expected|, lastSent);
      if r.status == Ok && !ReplyMatches(expected, r.received) {
        assert AllWellFormed(inputs[1..]);
        WaitEndsAtFirst(expected, inputs[1..], r.received, lastSent);
      }
    }
  }

  /** Some read of the input ends the wait. */
  predicate Ends(expected: seq<bv8>, inputs: seq<LinkInput>, received: seq<bv8>, lastSent: seq<bv8>)
    requires 4 <= |expected| <= BufferSize
    requires |received| == BufferSize && AllWellFormed(inputs)
    decreases |inputs|
  {
    |inputs| > 0 &&
      var r := LinkRead(inputs[0], received, |expected|, lastSent);
      r.status != Ok || ReplyMatches(expected, r.received) || Ends(expected, inputs[1..], r.received, lastSent)
  }

  // ---------------------------------------------------------------------
  // Failures and the checkpoint

  /** The three places a failure is counted: a failed read while waiting
      for a reply (`R`), a `$TIMESTRING` reply without the marker bytes
      0x6d 0x23 at offsets 60 and 61, and a failed read of the next page of
      `$ARCHIVEDATA1`. */
  datatype Failure = ReplyRead | TimeString | ArchiveRead

  /** The number of failures each place tolerates before the program ends
      (smatool.c:1519, 1948, 2028). */
  function Limit(f: Failure): nat
  {
    match f
    case ReplyRead => 60
    case TimeString => 10
    case ArchiveRead => 3
  }

  /** The interpreter state a failure touches: the counter
      `failedbluetooth`, the script line `linenum`, the checkpoint
      `returnline` (with `returnpos`, the file offset it stands for) and the
      archive records gathered so far (`archdatalist`). */
  class Interpreter {
    var failedBluetooth: nat
    var line: nat
    var returnLine: nat
    var archive: seq<ArchiveRecord>

    /** The state at the start of `main` (smatool.c:1277). */
    constructor ()
      ensures failedBluetooth == 0 && line == 0 && returnLine == 0 && archive == []
    {
      failedBluetooth := 0;
      line := 0;
      returnLine := 0;
      archive := [];
    }

    /** A checkpoint label (`:init`, `:setup`, `:setinverter1`,
        `:getrangedata`): later failures come back to this line. The
        counter is not reset. */
    method Checkpoint()
      modifies this
      ensures returnLine == line
      ensures failedBluetooth == old(failedBluetooth) && line == old(line) && archive == old(archive)
    {
      returnLine := line;
    }

    /** A failure at the place `f`: back to the checkpoint, archive
        records dropped, counter up by one; `exit` is true where the
        program ends. */
    method Fail(f: Failure) returns (exit: bool)
      modifies this
      ensures failedBluetooth == old(failedBluetooth) + 1
      ensures exit <==> failedBluetooth > Limit(f)
      ensures line == old(returnLine) && returnLine == old(returnLine) && archive == []
    {
      line := returnLine;
      archive := [];
      failedBluetooth := failedBluetooth + 1;
      exit := failedBluetooth > Limit(f);
    }
  }

  /** The program is still running after the failures `failures`, in that
      order, counted from a counter at `before`. */
  predicate Survives(failures: seq<Failure>, before: nat)
  {
    forall m :: 0 <= m < |failures| ==> before + m + 1 <= Limit(failures[m])
  }

  /** A run of the interpreter meeting the failures `failures` in order;
      `count` is the value of the counter at the end, and `exited` says
      whether the program ended at the last of them. */
  method RunFailures(failures: seq<Failure>) returns (exited: bool, count: nat)
    ensures exited <==> !Survives(failures, 0)
    ensures exited ==> 1 <= count <= |failures| && Survives(failures[..count - 1], 0) && count > Limit(failures[count - 1])
    ensures !exited ==> count == |failures|
  {
    var st := new Interpreter();
    var i := 0;
    while i < |failures|
      invariant 0 <= i <= |failures| && st.failedBluetooth == i
      invariant Survives(failures[..i], 0)
    {
      var exit := st.Fail(failures[i]);
      if exit {
        assert failures[..i + 1][..i] == failures[..i];
        return true, i + 1;
      }
      assert forall m :: 0 <= m <= i ==> failures[..i + 1][m] == failures[m];
      i := i + 1;
    }
    assert failures[..i] == failures;
    return false, i;
  }

  /** The thresholds bound the total number of failures, not the number in
      a row: a program still running has met at most 60 failures, a
      `$TIMESTRING` failure is survived only among the first ten and a
      failed archive read only among the first three, whatever came
      before. */
  lemma SurvivorBounds(failures: seq<Failure>)
    requires Survives(failures, 0)
    ensures |failures| <= Limit(ReplyRead)
    ensures forall m :: 0 <= m < |failures| && failures[m] == TimeString ==> m < Limit(TimeString)
    ensures forall m :: 0 <= m < |failures| && failures[m] == ArchiveRead ==> m < Limit(ArchiveRead)
  {
    if |failures| > 0 {
      var m := |failures| - 1;
      assert m + 1 <= Limit(failures[m]);
    }
  }

  /** Sixty-one failures end the program, whatever their places and
      however many successful reads came between them. */
  lemma ExitAfterLimit(failures: seq<Failure>)
    requires |failures| > Limit(ReplyRead)
    ensures !Survives(failures, 0)
  {
    var m := |failures| - 1;
    assert m + 1 > Limit(failures[m]);
  }
}
