/** ReadStream (smatool.c:713-755): the payload of a multi-frame answer is
    gathered from the frame already in `stream` and from the frames that
    follow it. The first frame's payload starts at offset 59 and every
    later frame's at offset 18; a frame ending in 0x7e is the last, and its
    final 3 bytes (FCS and terminator) are not payload. The socket is a
    finite list of link inputs: where the source would wait for ever on
    timeouts, the model stops with OutOfInput. */
module Stream {
  import opened Bytes
  import opened Decode
  import opened Link

  /** Where the payload starts in the first frame. */
  const FirstOffset: nat := 59
  /** Where the payload starts in every later frame. */
  const NextOffset: nat := 18
  /** Where the first frame holds `togo`, the number of frames still to
      come. */
  const TogoOffset: nat := 43
  /** The inner loop stops before copying an index beyond this one. */
  const SafetyCut: nat := 500

  /** How reassembly ends: a terminated frame was copied, the inputs ran
      out, or read_bluetooth aborted on an echo. */
  datatype StreamEnd = Complete | OutOfInput | Echo

  /** The payload copied and the state left in the caller's variables:
      `received`, `rr` and `terminated`. */
  datatype StreamResult = StreamResult(data: seq<bv8>, end: StreamEnd, stream: seq<bv8>, streamlen: int, terminated: bool)

  /** The index one past the last byte the inner loop copies from a frame
      of `streamlen` bytes. */
  function PieceEnd(streamlen: int, terminated: bool): int
  {
    var limit := if terminated then streamlen - 3 else streamlen;
    if limit < SafetyCut + 1 then limit else SafetyCut + 1
  }

  /** The payload bytes the inner loop copies from `stream` starting at
      `start`. */
  function Piece(stream: seq<bv8>, start: nat, streamlen: int, terminated: bool): seq<bv8>
    requires |stream| == BufferSize && start <= SafetyCut
  {
    var e := PieceEnd(streamlen, terminated);
    if start < e then stream[start..e] else []
  }

  /** All inputs the socket can deliver. */
  predicate AllWellFormed(inputs: seq<LinkInput>)
  {
    forall k :: 0 <= k < |inputs| ==> WellFormed(inputs[k])
  }

  /** What ReadStream does from a frame in `stream` whose payload starts at
      `start`, reading further frames from `inputs`. */
  function Reassemble(stream: seq<bv8>, start: nat, streamlen: int, terminated: bool,
                      inputs: seq<LinkInput>, cc: int, lastSent: seq<bv8>): StreamResult
    requires |stream| == BufferSize && start <= SafetyCut && AllWellFormed(inputs)
    requires 0 <= cc <= BufferSize
    decreases |inputs|
  {
    var piece := Piece(stream, start, streamlen, terminated);
    if terminated then StreamResult(piece, Complete, stream, streamlen, terminated)
    else if |inputs| == 0 then StreamResult(piece, OutOfInput, stream, streamlen, terminated)
    else
      var r := LinkRead(inputs[0], stream, cc, lastSent);
      if r.status == EchoAbort then StreamResult(piece, Echo, r.received, r.rr, r.terminated)
      else
        var rest := Reassemble(r.received, NextOffset, r.rr, r.terminated, inputs[1..], cc, lastSent);
        rest.(data := piece + rest.data)
  }

  /** The inner loop of smatool.c:729-742: appends to `data` the bytes of
      `stream` from `start` on that belong to the payload. */
  method CopyPiece(stream: array<bv8>, start: int, streamlen: int, terminated: bool, data: seq<bv8>)
    returns (out: seq<bv8>)
    requires stream.Length == BufferSize && 0 <= start <= SafetyCut
    ensures out == data + Piece(stream[..], start, streamlen, terminated)
  {
    out := data;
    var i := start;
    var finishedRecord := false;
    while !finishedRecord
      invariant start <= i <= SafetyCut + 1
      invariant i == start || i <= PieceEnd(streamlen, terminated)
      invariant out == data + stream[start..i]
      invariant finishedRecord ==> i >= PieceEnd(streamlen, terminated)
      decreases SafetyCut + 1 - i, if finishedRecord then 0 else 1
    {
      if i > SafetyCut {
        break;
      }
      if i < streamlen && (!terminated || i + 3 < streamlen) {
        assert stream[start..i + 1] == stream[start..i] + [stream[i]];
        out := out + [stream[i]];
        i := i + 1;
      } else {
        finishedRecord := true;
      }
    }
    assert i == start || i == PieceEnd(streamlen, terminated);
  }

  /** ReadStream: returns the payload, `*datalen`, `*togo` and how it
      ended; `stream`, the returned `streamlen` and `terminated` are what
      the last read left in the caller's variables. */
  method ReadStream(stream: array<bv8>, streamlen: int, terminated: bool, inputs: seq<LinkInput>,
                    cc: int, lastSent: seq<bv8>)
    returns (data: seq<bv8>, datalen: int, togo: int, end: StreamEnd, newLen: int, newTerminated: bool)
    requires stream.Length == BufferSize && AllWellFormed(inputs)
    requires 0 <= cc <= BufferSize
    modifies stream
    ensures togo == StreamValue(old(stream[TogoOffset..TogoOffset + 2]))
    ensures datalen == |data|
    ensures StreamResult(data, end, stream[..], newLen, newTerminated)
      == Reassemble(old(stream[..]), FirstOffset, streamlen, terminated, inputs, cc, lastSent)
  {
    togo := ConvertStream(stream[TogoOffset..], 2);
    assert stream[TogoOffset..][..2] == stream[TogoOffset..TogoOffset + 2];
    ghost var whole := Reassemble(stream[..], FirstOffset, streamlen, terminated, inputs, cc, lastSent);
    var i: nat := FirstOffset;
    var k := 0;
    data := [];
    newLen, newTerminated := streamlen, terminated;
    end := Complete;
    var finished := false;
    while !finished
      invariant 0 <= k <= |inputs| && i <= SafetyCut
      invariant !finished ==>
        var rest := Reassemble(stream[..], i, newLen, newTerminated, inputs[k..], cc, lastSent);
        rest.(data := data + rest.data) == whole
      invariant finished ==> StreamResult(data, end, stream[..], newLen, newTerminated) == whole
      decreases |inputs| - k + (if finished then 0 else 1)
    {
      ghost var before := stream[..];
      ghost var data0 := data;
      ghost var i0, len0 := i, newLen;
      ghost var piece := Piece(before, i, newLen, newTerminated);
      data := CopyPiece(stream, i, newLen, newTerminated, data);
      if !newTerminated {
        if k == |inputs| {
          end := OutOfInput;
          finished := true;
        } else {
          ReassembleRead(before, i, newLen, inputs, k, cc, lastSent);
          ghost var r := LinkRead(inputs[k], before, cc, lastSent);
          var status;
          status, newLen, newTerminated := ReadBluetooth(inputs[k], stream, cc, lastSent);
          assert stream[..] == r.received && newLen == r.rr && newTerminated == r.terminated;
          k := k + 1;
          i := NextOffset;
          if status == EchoAbort {
            end := Echo;
            finished := true;
          } else {
            ghost var next := Reassemble(stream[..], i, newLen, newTerminated, inputs[k..], cc, lastSent);
            ghost var here := Reassemble(before, i0, len0, false, inputs[k - 1..], cc, lastSent);
            assert here == next.(data := piece + next.data);
            LoopStep(whole, data0, piece, here, next);
          }
        }
      } else {
        end := Complete;
        finished := true;
      }
    }
    datalen := |data|;
  }

  /** The payload gathered so far plus what the rest of the reads bring is
      the whole payload, one piece after another. */
  lemma LoopStep(whole: StreamResult, data: seq<bv8>, piece: seq<bv8>, here: StreamResult, next: StreamResult)
    requires here.(data := data + here.data) == whole
    requires here == next.(data := piece + next.data)
    ensures next.(data := (data + piece) + next.data) == whole
  {
    assert (data + piece) + next.data == data + (piece + next.data);
  }

  /** One read of the outer loop of ReadStream: the frame in `stream` is
      not terminated, so its piece is followed by what the next input
      brings. */
  lemma ReassembleRead(stream: seq<bv8>, start: nat, streamlen: int, inputs: seq<LinkInput>, k: nat,
                       cc: int, lastSent: seq<bv8>)
    requires |stream| == BufferSize && start <= SafetyCut && AllWellFormed(inputs) && k < |inputs|
    requires 0 <= cc <= BufferSize
    ensures var r := LinkRead(inputs[k], stream, cc, lastSent);
      var here := Reassemble(stream, start, streamlen, false, inputs[k..], cc, lastSent);
      var piece := Piece(stream, start, streamlen, false);
      && (r.status == EchoAbort ==> here == StreamResult(piece, Echo, r.received, r.rr, r.terminated))
      && (r.status != EchoAbort ==>
            var next := Reassemble(r.received, NextOffset, r.rr, r.terminated, inputs[k + 1..], cc, lastSent);
            here == next.(data := piece + next.data))
  {
    assert inputs[k..][0] == inputs[k] && inputs[k..][1..] == inputs[k + 1..];
  }

  // ---------------------------------------------------------------------
  // Properties

  /** A piece has one byte per index from `start` up to its end: the whole
      frame from `start` when it is not terminated, all but the last 3
      bytes when it is, and never an index beyond 500. */
  lemma PieceBytes(stream: seq<bv8>, start: nat, streamlen: int, terminated: bool)
    requires |stream| == BufferSize && start <= SafetyCut
    ensures var p := Piece(stream, start, streamlen, terminated);
      && |p| == (if start < PieceEnd(streamlen, terminated) then PieceEnd(streamlen, terminated) - start else 0)
      && (forall k :: 0 <= k < |p| ==>
            && p[k] == stream[start + k] && start + k <= SafetyCut
            && start + k < streamlen && (terminated ==> start + k + 3 < streamlen))
  {
  }

  /** The cut at index 500 never shortens a frame whose length byte is 3 or
      more: read_bluetooth then leaves at most 255 bytes, so the piece is the
      frame from offset 18 up to its end, less 3 bytes when terminated. */
  lemma NoCutOnLinkFrames(input: LinkInput, stream: seq<bv8>, cc: int, lastSent: seq<bv8>)
    requires WellFormed(input) && |stream| == BufferSize
    requires input.Frame? ==> input.header[1] as int >= 3
    requires 0 <= cc <= BufferSize
    ensures var r := LinkRead(input, stream, cc, lastSent);
      var e := if r.terminated then r.rr - 3 else r.rr;
      Piece(r.received, NextOffset, r.rr, r.terminated) == if NextOffset < e then r.received[NextOffset..e] else []
  {
  }

  /** The loop stops at the first terminated frame (or echo): inputs after
      it are never read. */
  lemma {:induction false} LaterInputUnread(stream: seq<bv8>, start: nat, streamlen: int, terminated: bool,
                                             inputs: seq<LinkInput>, more: seq<LinkInput>, cc: int, lastSent: seq<bv8>)
    requires |stream| == BufferSize && start <= SafetyCut && AllWellFormed(inputs) && AllWellFormed(more)
    requires 0 <= cc <= BufferSize
    requires Reassemble(stream, start, streamlen, terminated, inputs, cc, lastSent).end != OutOfInput
    ensures AllWellFormed(inputs + more)
    ensures Reassemble(stream, start, streamlen, terminated, inputs + more, cc, lastSent)
      == Reassemble(stream, start, streamlen, terminated, inputs, cc, lastSent)
    decreases |inputs|
  {
    assert forall k :: 0 <= k < |inputs + more| ==> WellFormed((inputs + more)[k]) by {
      forall k | 0 <= k < |inputs + more|
        ensures WellFormed((inputs + more)[k])
      {
        if k >= |inputs| {
          assert (inputs + more)[k] == more[k - |inputs|];
        }
      }
    }
    if !terminated && |inputs| > 0 {
      var r := LinkRead(inputs[0], stream, cc, lastSent);
      assert (inputs + more)[0] == inputs[0];
      if r.status != EchoAbort {
        assert (inputs + more)[1..] == inputs[1..] + more;
        LaterInputUnread(r.received, NextOffset, r.rr, r.terminated, inputs[1..], more, cc, lastSent);
      }
    }
  }

  /** Reassembly ends Complete exactly when the last frame copied was
      terminated, and otherwise leaves `terminated` clear. */
  lemma {:induction false} CompleteIffTerminated(stream: seq<bv8>, start: nat, streamlen: int, terminated: bool,
                                                  inputs: seq<LinkInput>, cc: int, lastSent: seq<bv8>)
    requires |stream| == BufferSize && start <= SafetyCut && AllWellFormed(inputs)
    requires 0 <= cc <= BufferSize
    ensures var r := Reassemble(stream, start, streamlen, terminated, inputs, cc, lastSent);
      (r.end == Complete <==> r.terminated) && (r.end == Complete ==> |r.stream| == BufferSize)
    decreases |inputs|
  {
    if !terminated && |inputs| > 0 {
      var r := LinkRead(inputs[0], stream, cc, lastSent);
      if r.status != EchoAbort {
        CompleteIffTerminated(r.received, NextOffset, r.rr, r.terminated, inputs[1..], cc, lastSent);
      }
    }
  }

  /** A reply that is already terminated is the first frame's payload from
      offset 59 alone, and nothing is read. */
  lemma SingleFrame(stream: seq<bv8>, streamlen: int, inputs: seq<LinkInput>, cc: int, lastSent: seq<bv8>)
    requires |stream| == BufferSize && AllWellFormed(inputs)
    requires 0 <= cc <= BufferSize
    ensures Reassemble(stream, FirstOffset, streamlen, true, inputs, cc, lastSent)
      == StreamResult(Piece(stream, FirstOffset, streamlen, true), Complete, stream, streamlen, true)
  {
  }

  /** A frame that is not terminated is followed by the next frame's payload
      from offset 18. */
  lemma NextFrame(stream: seq<bv8>, start: nat, streamlen: int, input: LinkInput, inputs: seq<LinkInput>,
                  cc: int, lastSent: seq<bv8>)
    requires |stream| == BufferSize && start <= SafetyCut && WellFormed(input) && AllWellFormed(inputs)
    requires 0 <= cc <= BufferSize
    requires LinkRead(input, stream, cc, lastSent).status != EchoAbort
    ensures AllWellFormed([input] + inputs)
    ensures var r := LinkRead(input, stream, cc, lastSent);
      Reassemble(stream, start, streamlen, false, [input] + inputs, cc, lastSent).data
        == Piece(stream, start, streamlen, false)
           + Reassemble(r.received, NextOffset, r.rr, r.terminated, inputs, cc, lastSent).data
  {
    assert forall k :: 1 <= k < |[input] + inputs| ==> ([input] + inputs)[k] == inputs[k - 1];
    assert ([input] + inputs)[0] == input && ([input] + inputs)[1..] == inputs;
  }
}
