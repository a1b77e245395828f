/** One frame read from the inverter link: read_bluetooth (bluetooth.c:53-140).
    The socket is an input value: either nothing arrives before the timeout,
    or a 3-byte header arrives followed by the body bytes recv returns.
    The frame is unescaped into the caller's 1024-byte buffer behind the
    header and its length byte is then repaired. */
module Link {
  import opened Bytes
  import opened Escapes
  import opened LengthFix

  /** Size of the receive buffers (bluetooth.c:57; smatool.c `received`). */
  const BufferSize: nat := 1024
  /** The byte that ends a message. */
  const Terminator: bv8 := 0x7e

  /** What the socket delivers to one call. */
  datatype LinkInput = Timeout | Frame(header: seq<bv8>, body: seq<bv8>)

  /** The most body bytes the buffers take: the unescaped body goes to
      `received` behind the 3 header bytes. */
  const MaxBody: nat := BufferSize - 3

  /** How many body bytes recv may return for the length byte `len`: it is
      asked for `len - 3`; below 3 that count is negative and turns into a
      huge `size_t`, so only the buffers bound what arrives. */
  function BodyLimit(len: bv8): nat
  {
    if len as int >= 3 then len as int - 3 else MaxBody
  }

  /** A frame the socket can deliver: three header bytes and at most as many
      body bytes as recv may return for the header's length byte. */
  predicate WellFormed(input: LinkInput)
  {
    input.Frame? ==> |input.header| == 3 && |input.body| <= BodyLimit(input.header[1])
  }

  /** How a call ends: return value 0, return value -1, or abort() on an
      echo of the frame just sent. */
  datatype Status = Ok | TimedOut | EchoAbort

  /** The outcome of one call: the status, the new contents of `received`,
      `*rr` and `*terminated`. */
  datatype LinkResult = LinkResult(status: Status, received: seq<bv8>, rr: int, terminated: bool)

  /** The switch of the unescape loop on the byte after 0x7d
      (bluetooth.c:115-127). */
  function EscapedValue(next: bv8): bv8
  {
    match next
    case 0x5e => 0x7e
    case 0x5d => 0x7d
    case _ => next ^ EscapeMask
  }

  /** The unescape loop of read_bluetooth (bluetooth.c:112-135). The byte
      after a 0x7d is read from the zero-filled buffer, so a lone 0x7d at the
      end of the body reads 0 and yields 0x20. */
  function ReadUnescape(b: seq<bv8>): seq<bv8>
    decreases |b|
  {
    if |b| == 0 then []
    else if b[0] == EscapeByte then
      if |b| == 1 then [EscapedValue(0)] else [EscapedValue(b[1])] + ReadUnescape(b[2..])
    else [b[0]] + ReadUnescape(b[1..])
  }

  /** The echo test of bluetooth.c:103: `cc` body bytes, and the first `cc`
      bytes of `received` (the new header followed by whatever the previous
      frame left) equal to the frame last sent. A frame last sent that is
      shorter than `cc` is not an echo. */
  predicate IsEcho(r: seq<bv8>, n: int, cc: int, lastSent: seq<bv8>)
    requires 0 <= cc <= |r|
  {
    cc == n && cc <= |lastSent| && r[..cc] == lastSent[..cc]
  }

  /** What read_bluetooth does, for input `input`, a `received` buffer
      holding `received`, and the frame sent last (`cc` bytes of
      `lastSent`). */
  function LinkRead(input: LinkInput, received: seq<bv8>, cc: int, lastSent: seq<bv8>): (r: LinkResult)
    requires WellFormed(input) && |received| == BufferSize
    requires 0 <= cc <= BufferSize
    ensures |r.received| == BufferSize && 0 <= r.rr <= BufferSize
    ensures input.Frame? && input.header[1] as int >= 3 ==> r.rr <= input.header[1] as int
    ensures r.terminated ==> r.status == Ok && r.rr >= 3
  {
    match input
    case Timeout => LinkResult(TimedOut, seq(BufferSize, _ => 0), 0, false)
    case Frame(h, body) =>
      var r0 := h + received[3..];
      if |body| == 0 then LinkResult(Ok, r0, 3, false)
      else if IsEcho(r0, |body|, cc, lastSent) then LinkResult(EchoAbort, r0, 3, false)
      else
        var out := ReadUnescape(body);
        ReadUnescapeShorter(body);
        var rr := 3 + |out|;
        LinkResult(Ok, Repaired(h + out + r0[rr..], rr), rr, body[|body| - 1] == Terminator)
  }

  // ---------------------------------------------------------------------
  // Lemmas

  /** The switch after 0x7d is an xor with 0x20 in all three branches. */
  lemma EscapedValueIsXor(next: bv8)
    ensures EscapedValue(next) == next ^ EscapeMask
  {
  }

  /** Each output byte consumes at least one body byte. */
  lemma {:induction false} ReadUnescapeShorter(b: seq<bv8>)
    ensures |ReadUnescape(b)| <= |b|
    decreases |b|
  {
    if |b| > 1 {
      if b[0] == EscapeByte {
        ReadUnescapeShorter(b[2..]);
      } else {
        ReadUnescapeShorter(b[1..]);
      }
    } else if |b| == 1 && b[0] != EscapeByte {
      ReadUnescapeShorter(b[1..]);
    }
  }

  /** The unescaped length is the body length less one per escape pair; a
      lone trailing 0x7d still yields one byte. */
  lemma {:induction false} ReadUnescapeLength(b: seq<bv8>)
    ensures |ReadUnescape(b)| == |b| - PairCount(b)
    decreases |b|
  {
    if |b| > 0 {
      if b[0] == EscapeByte {
        if |b| > 1 {
          ReadUnescapeLength(b[2..]);
        }
      } else {
        ReadUnescapeLength(b[1..]);
      }
    }
  }

  /** The read side agrees with strip_escapes (smatool.c:170-181) except on
      a lone trailing 0x7d, which strip_escapes drops and the read side turns
      into 0x20. */
  lemma {:induction false} ReadUnescapeIsStrip(b: seq<bv8>)
    ensures ReadUnescape(b) == Unescape(b) + (if EndsInLoneEscape(b) then [0x20] else [])
    decreases |b|
  {
    if |b| > 0 {
      if b[0] == EscapeByte {
        if |b| > 1 {
          ReadUnescapeIsStrip(b[2..]);
          EscapedValueIsXor(b[1]);
        }
      } else {
        ReadUnescapeIsStrip(b[1..]);
      }
    }
  }

  /** On timeout the call returns -1 with `*rr == 0`, `*terminated == 0` and
      all 1024 bytes of `received` zeroed. */
  lemma LinkReadTimeout(received: seq<bv8>, cc: int, lastSent: seq<bv8>)
    requires |received| == BufferSize && 0 <= cc <= BufferSize
    ensures var res := LinkRead(Timeout, received, cc, lastSent);
      && res.status == TimedOut && res.rr == 0 && !res.terminated
      && |res.received| == BufferSize
      && forall k :: 0 <= k < BufferSize ==> res.received[k] == 0
  {
  }

  /** An empty body (recv returned nothing) leaves the header verbatim in
      front of the old contents, with `*rr == 3` and no repair. */
  lemma LinkReadEmptyBody(h: seq<bv8>, received: seq<bv8>, cc: int, lastSent: seq<bv8>)
    requires WellFormed(Frame(h, [])) && |received| == BufferSize
    requires 0 <= cc <= BufferSize
    ensures var res := LinkRead(Frame(h, []), received, cc, lastSent);
      && res.status == Ok && res.rr == 3 && !res.terminated
      && res.received[..3] == h && res.received[3..] == received[3..]
  {
    var res := LinkRead(Frame(h, []), received, cc, lastSent);
    assert res.received == h + received[3..];
  }

  /** A non-empty frame is an echo of our own frame exactly when the body has
      `cc` bytes and the header plus the stale bytes after it match the frame
      sent last, which has at least `cc` bytes; the call then aborts. */
  lemma LinkReadEcho(h: seq<bv8>, body: seq<bv8>, received: seq<bv8>, cc: int, lastSent: seq<bv8>)
    requires WellFormed(Frame(h, body)) && |body| > 0 && |received| == BufferSize
    requires 0 <= cc <= BufferSize
    ensures LinkRead(Frame(h, body), received, cc, lastSent).status == EchoAbort <==>
      (cc == |body| && cc <= |lastSent| && (h + received[3..])[..cc] == lastSent[..cc])
  {
  }

  /** A frame that is read returns 0; `*rr` is 3 plus the body less one per
      escape pair, fits the buffer, and never exceeds a length byte of 3 or
      more; `*terminated` says whether the last body byte is 0x7e. */
  lemma LinkReadFrameCounts(h: seq<bv8>, body: seq<bv8>, received: seq<bv8>, cc: int, lastSent: seq<bv8>)
    requires WellFormed(Frame(h, body)) && |body| > 0 && |received| == BufferSize
    requires 0 <= cc <= BufferSize
    requires !(cc == |body| && cc <= |lastSent| && (h + received[3..])[..cc] == lastSent[..cc])
    ensures var res := LinkRead(Frame(h, body), received, cc, lastSent);
      && res.status == Ok
      && res.rr == 3 + |body| - PairCount(body)
      && res.rr <= BufferSize
      && (h[1] as int >= 3 ==> res.rr <= h[1] as int)
      && (res.terminated <==> body[|body| - 1] == Terminator)
  {
    ReadUnescapeShorter(body);
    ReadUnescapeLength(body);
  }

  /** A frame that is read: bytes 0 and 2 are the header's, bytes 4..rr are
      the unescaped body, and the rest of the buffer is what it was. */
  lemma LinkReadFrameBytes(h: seq<bv8>, body: seq<bv8>, received: seq<bv8>, cc: int, lastSent: seq<bv8>)
    requires WellFormed(Frame(h, body)) && |body| > 0 && |received| == BufferSize
    requires 0 <= cc <= BufferSize
    requires !(cc == |body| && cc <= |lastSent| && (h + received[3..])[..cc] == lastSent[..cc])
    ensures var res := LinkRead(Frame(h, body), received, cc, lastSent);
      && |res.received| == BufferSize
      && res.received[0] == h[0] && res.received[2] == h[2]
      && (forall k :: 4 <= k < res.rr ==> res.received[k] == ReadUnescape(body)[k - 3])
      && (forall k :: res.rr <= k < BufferSize ==> res.received[k] == received[k])
  {
    var out := ReadUnescape(body);
    ReadUnescapeShorter(body);
    var rr := 3 + |out|;
    var pre := h + out + (h + received[3..])[rr..];
    assert forall k :: rr <= k < BufferSize ==> pre[k] == received[k];
    assert forall k :: 3 <= k < rr ==> pre[k] == out[k - 3];
    RepairFrame(pre, rr);
  }

  /** The length byte of a frame that is read ends up as `*rr` (its low
      eight bits when a small length byte let a long body through), and the
      companion byte is recomputed, unless the header's length byte already
      agreed or the first body byte is a sentinel. */
  lemma LinkReadFrameLengthByte(h: seq<bv8>, body: seq<bv8>, received: seq<bv8>, cc: int, lastSent: seq<bv8>)
    requires WellFormed(Frame(h, body)) && |body| > 0 && |received| == BufferSize
    requires 0 <= cc <= BufferSize
    requires !(cc == |body| && cc <= |lastSent| && (h + received[3..])[..cc] == lastSent[..cc])
    ensures |ReadUnescape(body)| > 0
    ensures var res := LinkRead(Frame(h, body), received, cc, lastSent);
      var first := ReadUnescape(body)[0];
      && (h[1] as int == res.rr || IsSentinel(first) ==>
            res.received[1] == h[1] && res.received[3] == first)
      && (!(h[1] as int == res.rr || IsSentinel(first)) ==>
            res.received[1] == LowByte(res.rr) && res.received[3] == RepairedCompanion(h[1], first, LowByte(res.rr)))
    ensures var res := LinkRead(Frame(h, body), received, cc, lastSent);
      res.rr < 256 && !IsSentinel(ReadUnescape(body)[0]) ==> res.received[1] as int == res.rr
  {
    var out := ReadUnescape(body);
    ReadUnescapeShorter(body);
    ReadUnescapeLength(body);
    var rr := 3 + |out|;
    var pre := h + out + (h + received[3..])[rr..];
    assert pre[1] == h[1] && pre[3] == out[0];
    var res := LinkRead(Frame(h, body), received, cc, lastSent);
    assert res.rr == rr && res.received == Repaired(pre, rr);
    RepairedHeader(pre, rr);
    if rr < 256 {
      SmallByte(rr);
    }
  }

  /** The low byte of a length below 256 has that value. */
  lemma SmallByte(len: int)
    requires 0 <= len < 256
    ensures LowByte(len) as int == len
  {
    LowByteValue(len);
    SmallMod(len);
  }

  /** Bytes 1 and 3 after a repair. */
  lemma RepairedHeader(s: seq<bv8>, len: int)
    requires |s| >= 4
    ensures s[1] as int == len || IsSentinel(s[3]) ==>
      Repaired(s, len)[1] == s[1] && Repaired(s, len)[3] == s[3]
    ensures !(s[1] as int == len || IsSentinel(s[3])) ==>
      Repaired(s, len)[1] == LowByte(len) && Repaired(s, len)[3] == RepairedCompanion(s[1], s[3], LowByte(len))
  {
  }

  // ---------------------------------------------------------------------
  // The operation

  /** One step of the unescape loop on the remaining body `b = body[i..]`. */
  lemma ReadUnescapeStep(body: seq<bv8>, i: nat)
    requires i < |body|
    ensures body[i] == EscapeByte && i + 1 < |body| ==>
      ReadUnescape(body[i..]) == [EscapedValue(body[i + 1])] + ReadUnescape(body[i + 2..])
    ensures body[i] == EscapeByte && i + 1 == |body| ==>
      ReadUnescape(body[i..]) == [EscapedValue(0)]
    ensures body[i] != EscapeByte ==>
      ReadUnescape(body[i..]) == [body[i]] + ReadUnescape(body[i + 1..])
  {
    assert body[i..][1..] == body[i + 1..];
    if i + 1 < |body| {
      assert body[i..][2..] == body[i + 2..];
    }
  }

  /** The switch on the byte after 0x7d (bluetooth.c:115-127). */
  method EscapeSwitch(next: bv8) returns (v: bv8)
    ensures v == EscapedValue(next)
  {
    match next {
      case 0x5e => v := 0x7e;
      case 0x5d => v := 0x7d;
      case _ => v := next ^ EscapeMask;
    }
  }

  /** One pass of the unescape loop at body index `i`: the byte it stores
      and the index of the next pass. */
  method UnescapeStep(buf: array<bv8>, n: int, i: int, ghost body: seq<bv8>) returns (v: bv8, j: int)
    requires 0 <= i < n < buf.Length && buf[..n] == body && buf[n] == 0
    ensures i < j <= i + 2 && j <= n + 1
    ensures j <= n ==> [v] + ReadUnescape(body[j..]) == ReadUnescape(body[i..])
    ensures j == n + 1 ==> [v] == ReadUnescape(body[i..])
  {
    ReadUnescapeStep(body, i);
    if buf[i] == EscapeByte {
      v := EscapeSwitch(buf[i + 1]);
      if i + 1 < n {
        assert buf[i + 1] == body[i + 1];
      } else {
        assert buf[i + 1] == 0;
      }
      j := i + 2;
    } else {
      v := buf[i];
      j := i + 1;
    }
  }

  /** The unescape loop of read_bluetooth (bluetooth.c:112-135): unescapes
      the `n` body bytes of `buf` into `received` behind the 3 header bytes
      and returns the new `*rr`. */
  method UnescapeBody(buf: array<bv8>, n: int, received: array<bv8>, ghost body: seq<bv8>) returns (rr: int)
    requires buf != received && 0 < n < buf.Length && 3 + n <= received.Length
    requires buf[..n] == body && buf[n] == 0
    modifies received
    ensures rr == 3 + |ReadUnescape(body)| && rr <= 3 + n
    ensures received[..rr] == old(received[..3]) + ReadUnescape(body)
    ensures forall k :: rr <= k < received.Length ==> received[k] == old(received[k])
  {
    ghost var out := ReadUnescape(body);
    ReadUnescapeShorter(body);
    rr := 3;
    var i := 0;
    while i < n
      invariant 0 <= i <= n + 1 && 3 <= rr && rr - 3 <= i && rr - 3 <= |out|
      invariant forall k :: 0 <= k < 3 ==> received[k] == old(received[k])
      invariant forall k :: 3 <= k < rr ==> received[k] == out[k - 3]
      invariant forall k :: rr <= k < received.Length ==> received[k] == old(received[k])
      invariant i <= n ==> ReadUnescape(body[i..]) == out[rr - 3..]
      invariant i == n + 1 ==> rr - 3 == |out|
    {
      var v, j := UnescapeStep(buf, n, i, body);
      if j <= n {
        SplitHead(out, rr - 3, v, ReadUnescape(body[j..]));
      } else {
        SplitHead(out, rr - 3, v, []);
      }
      received[rr] := v;
      rr := rr + 1;
      i := j;
    }
    if i == n {
      assert body[i..] == [];
    }
    assert received[..rr] == old(received[..3]) + out;
  }

  /** A suffix that starts with `v` followed by `x`. */
  lemma SplitHead(s: seq<bv8>, k: int, v: bv8, x: seq<bv8>)
    requires 0 <= k <= |s| && s[k..] == [v] + x
    ensures k < |s| && s[k] == v && s[k + 1..] == x
  {
    assert s[k..][0] == v;
    assert s[k..][1..] == x;
  }

  /** read_bluetooth on the buffer `received`; returns the status, `*rr` and
      `*terminated`. */
  method ReadBluetooth(input: LinkInput, received: array<bv8>, cc: int, lastSent: seq<bv8>)
    returns (status: Status, rr: int, terminated: bool)
    requires WellFormed(input) && received.Length == BufferSize
    requires 0 <= cc <= BufferSize
    modifies received
    ensures LinkResult(status, received[..], rr, terminated) == LinkRead(input, old(received[..]), cc, lastSent)
  {
    var buf := new bv8[BufferSize](_ => 0);
    terminated := false;
    if input.Timeout? {
      rr := 0;
      forall k | 0 <= k < received.Length {
        received[k] := 0;
      }
      assert received[..] == seq(BufferSize, _ => 0);
      status := TimedOut;
      return;
    }
    var h := input.header;
    var body := input.body;
    CopyHeader(h, received);
    rr := 3;
    var n := |body|;
    forall k | 0 <= k < n {
      buf[k] := body[k];
    }
    assert buf[..n] == body;
    if n > 0 {
      status, rr, terminated := ReadBody(buf, n, received, cc, lastSent, h, body, old(received[..]));
    } else {
      status := Ok;
    }
  }

  /** The header loop of bluetooth.c:76-81: the three header bytes go to
      the front of `received`. */
  method CopyHeader(h: seq<bv8>, received: array<bv8>)
    requires |h| == 3 && received.Length >= 3
    modifies received
    ensures received[..] == h + old(received[3..])
  {
    var i := 0;
    while i < 3
      invariant 0 <= i <= 3
      invariant received[..i] == h[..i]
      invariant received[3..] == old(received[3..])
    {
      received[i] := h[i];
      i := i + 1;
    }
    assert received[..] == received[..3] + received[3..];
  }

  /** Bytes read (bluetooth.c:101-137): the echo test, the terminator test,
      the unescape loop and the length repair, once the header is in place
      and the `n > 0` body bytes are in the zero-filled `buf`. */
  method ReadBody(buf: array<bv8>, n: int, received: array<bv8>, cc: int, lastSent: seq<bv8>,
                  ghost h: seq<bv8>, ghost body: seq<bv8>, ghost before: seq<bv8>)
    returns (status: Status, rr: int, terminated: bool)
    requires WellFormed(Frame(h, body)) && |body| == n > 0
    requires received.Length == BufferSize == |before| && 0 <= cc <= BufferSize
    requires buf != received && buf.Length == BufferSize
    requires buf[..n] == body && forall k :: n <= k < BufferSize ==> buf[k] == 0
    requires received[..] == h + before[3..]
    modifies received
    ensures LinkResult(status, received[..], rr, terminated) == LinkRead(Frame(h, body), before, cc, lastSent)
  {
    ghost var r0 := received[..];
    if cc == n && cc <= |lastSent| && received[..cc] == lastSent[..cc] {
      status, rr, terminated := EchoAbort, 3, false;
      return;
    }
    assert !IsEcho(r0, n, cc, lastSent);
    terminated := buf[n - 1] == Terminator;
    ReadUnescapeShorter(body);
    rr := UnescapeBody(buf, n, received, body);
    assert received[..] == h + ReadUnescape(body) + r0[rr..] by {
      assert received[..] == received[..rr] + received[rr..];
    }
    FixLengthReceived(received, rr);
    status := Ok;
  }
}
