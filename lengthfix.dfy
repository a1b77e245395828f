/** The length repairs of the frame header: `fix_length_received`
    (bluetooth.c:30-51) on a frame just read, and `fix_length_send`
    (smatool.c:209-257) on a frame about to be written. Byte 1 of the header
    is the frame length and byte 3 a companion byte derived from it. */
module LengthFix {
  import opened Bytes

  // ---------------------------------------------------------------------
  // Receive side

  /** Companion bytes that tell fix_length_received to leave the header
      alone (bluetooth.c:40). */
  predicate IsSentinel(b: bv8)
  {
    b == 0x13 || b == 0x14
  }

  /** The fixed companion bytes of fix_length_received (bluetooth.c:42-46). */
  function ReceiveTable(len: bv8): Option<bv8>
  {
    match len
    case 0x52 => Some(0x2c)
    case 0x5a => Some(0x24)
    case 0x66 => Some(0x1a)
    case 0x6a => Some(0x14)
    case _ => None
  }

  /** The companion byte once the length byte `r1` was replaced by `n1`:
      the table value, or else the old sum (an `int`) less the new length,
      truncated to a byte. */
  function RepairedCompanion(r1: bv8, r3: bv8, n1: bv8): bv8
  {
    match ReceiveTable(n1)
    case Some(v) => v
    case None => LowByte(r1 as int + r3 as int - n1 as int)
  }

  /** Bytes 1 and 3 after fix_length_received, from bytes 1 and 3 before.
      The length test compares the byte with the full `int`, so a `len` of
      256 or more always counts as a disagreement; the byte stored is its low
      eight bits. */
  function RepairHeader(r1: bv8, r3: bv8, len: int): (bv8, bv8)
  {
    if r1 as int == len || IsSentinel(r3) then (r1, r3)
    else
      var n1 := LowByte(len);
      (n1, RepairedCompanion(r1, r3, n1))
  }

  /** The frame after fix_length_received(s, len). */
  function Repaired(s: seq<bv8>, len: int): (r: seq<bv8>)
    requires |s| >= 4
    ensures |r| == |s|
  {
    var h := RepairHeader(s[1], s[3], len);
    s[1 := h.0][3 := h.1]
  }

  /** fix_length_received: repairs `received[1]` and `received[3]` in place. */
  method FixLengthReceived(received: array<bv8>, len: int)
    requires received.Length >= 4
    modifies received
    ensures received[..] == Repaired(old(received[..]), len)
  {
    var r1, r3 := received[1], received[3];
    if r1 as int != len {
      var sum := r1 as int + r3 as int;
      if r3 != 0x13 && r3 != 0x14 {
        var n1 := LowByte(len);
        received[1] := n1;
        // The switch of bluetooth.c:42-47 is the table ReceiveTable.
        var entry := ReceiveTable(n1);
        received[3] := if entry.Some? then entry.value else LowByte(sum - n1 as int);
      }
    }
  }

  /** Only bytes 1 and 3 are ever written, and they get the values
      RepairHeader gives them. */
  lemma RepairFrame(s: seq<bv8>, len: int)
    requires |s| >= 4
    ensures Repaired(s, len)[1] == RepairHeader(s[1], s[3], len).0
    ensures Repaired(s, len)[3] == RepairHeader(s[1], s[3], len).1
    ensures forall k :: 0 <= k < |s| && k != 1 && k != 3 ==> Repaired(s, len)[k] == s[k]
  {
  }

  /** A length byte that already agrees is left alone, companion included. */
  lemma RepairAgreeingLength(s: seq<bv8>, len: int)
    requires |s| >= 4 && s[1] as int == len
    ensures Repaired(s, len) == s
  {
  }

  /** A sentinel companion byte protects the whole header, even when the
      length disagrees. */
  lemma RepairSentinel(s: seq<bv8>, len: int)
    requires |s| >= 4 && IsSentinel(s[3])
    ensures Repaired(s, len) == s
  {
  }

  /** Otherwise the length byte becomes `len` (its low byte) and the four
      table lengths get their fixed companion bytes. */
  lemma RepairSetsLength(r1: bv8, r3: bv8, len: int)
    requires r1 as int != len && !IsSentinel(r3)
    ensures var (n1, n3) := RepairHeader(r1, r3, len);
      && n1 == LowByte(len)
      && (n1 == 0x52 ==> n3 == 0x2c)
      && (n1 == 0x5a ==> n3 == 0x24)
      && (n1 == 0x66 ==> n3 == 0x1a)
      && (n1 == 0x6a ==> n3 == 0x14)
  {
  }

  /** For every other new length the companion byte is chosen so that the
      sum of the two bytes stays what it was, modulo 256. */
  lemma RepairKeepsSum(r1: bv8, r3: bv8, len: int)
    requires r1 as int != len && !IsSentinel(r3)
    requires ReceiveTable(LowByte(len)).None?
    ensures var (n1, n3) := RepairHeader(r1, r3, len);
      (n1 as int + n3 as int) % 256 == (r1 as int + r3 as int) % 256
  {
    var n1 := LowByte(len);
    var d := r1 as int + r3 as int - n1 as int;
    var n3 := RepairHeader(r1, r3, len).1;
    assert n3 == LowByte(d);
    LowByteValue(d);
    AddMod(n1 as int, d);
    assert n1 as int + d == r1 as int + r3 as int;
  }

  /** A second repair with the same length changes nothing, whatever `len`. */
  lemma RepairIdempotent(s: seq<bv8>, len: int)
    requires |s| >= 4
    ensures Repaired(Repaired(s, len), len) == Repaired(s, len)
  {
    var h := RepairHeader(s[1], s[3], len);
    HeaderIdempotent(s[1], s[3], len);
    var r := Repaired(s, len);
    assert r[1] == h.0 && r[3] == h.1;
    assert r[1 := h.0][3 := h.1] == r;
  }

  /** The same on the two header bytes. */
  lemma HeaderIdempotent(r1: bv8, r3: bv8, len: int)
    ensures var h := RepairHeader(r1, r3, len); RepairHeader(h.0, h.1, len) == h
  {
    if !(r1 as int == len || IsSentinel(r3)) {
      var n1 := LowByte(len);
      var h := RepairHeader(r1, r3, len);
      if !(n1 as int == len || IsSentinel(h.1)) {
        if ReceiveTable(n1).None? {
          assert n1 as int + h.1 as int - n1 as int == h.1 as int;
          LowByteOfByte(h.1);
        }
      }
    }
  }

  // ---------------------------------------------------------------------
  // Send side

  /** The fixed companion bytes of fix_length_send (smatool.c:225-251). */
  function SendTable(len: bv8): Option<bv8>
  {
    match len
    case 0x3a => Some(0x44)
    case 0x3b => Some(0x43)
    case 0x3c => Some(0x42)
    case 0x3d => Some(0x41)
    case 0x3e => Some(0x40)
    case 0x3f => Some(0x41)
    case 0x40 => Some(0x3e)
    case 0x41 => Some(0x3f)
    case 0x42 => Some(0x3c)
    case 0x52 => Some(0x2c)
    case 0x53 => Some(0x2b)
    case 0x54 => Some(0x2a)
    case 0x55 => Some(0x29)
    case 0x56 => Some(0x28)
    case 0x57 => Some(0x27)
    case 0x58 => Some(0x26)
    case 0x59 => Some(0x25)
    case 0x5a => Some(0x24)
    case 0x5b => Some(0x23)
    case 0x5c => Some(0x22)
    case 0x5d => Some(0x23)
    case 0x5e => Some(0x20)
    case 0x5f => Some(0x21)
    case 0x60 => Some(0x1e)
    case 0x61 => Some(0x1f)
    case 0x62 => Some(0x1e)
    case _ => None
  }

  /** The frame after fix_length_send(cp, len), or None where it aborts. The
      length byte counts the 0x7e terminator that follows the `len` bytes. */
  function FixedForSend(s: seq<bv8>, len: int): Option<seq<bv8>>
    requires |s| >= 4
  {
    var n1 := LowByte(len + 1);
    match SendTable(n1)
    case None => None
    case Some(v) => Some(s[1 := n1][3 := v])
  }

  /** fix_length_send: sets `cp[1]` and `cp[3]` for a frame of `len` bytes;
      `ok` is false where the source aborts. */
  method FixLengthSend(cp: array<bv8>, len: int) returns (ok: bool)
    requires cp.Length >= 4
    modifies cp
    ensures ok <==> FixedForSend(old(cp[..]), len).Some?
    ensures ok ==> cp[..] == FixedForSend(old(cp[..]), len).value
  {
    cp[3] := LowByte(cp[1] as int + cp[3] as int - (len + 1));
    cp[1] := LowByte(len + 1);
    // The switch of smatool.c:225-251 is the table SendTable; its default
    // branch aborts.
    var entry := SendTable(cp[1]);
    if entry.Some? {
      cp[3] := entry.value;
      ok := true;
    } else {
      ok := false;
    }
  }

  /** The send table knows exactly the lengths 0x3a..0x42 and 0x52..0x62. */
  lemma SendTableDomain(b: bv8)
    ensures SendTable(b).Some? <==> (0x3a <= b <= 0x42 || 0x52 <= b <= 0x62)
  {
  }

  /** fix_length_send succeeds exactly for frames of 0x39..0x41 or
      0x51..0x61 bytes (modulo 256); it then sets the length byte to `len + 1`
      and the companion byte from the table, and writes nothing else. */
  lemma FixedForSendSpec(s: seq<bv8>, len: int)
    requires |s| >= 4
    ensures FixedForSend(s, len).Some? <==>
      var n1 := LowByte(len + 1); 0x3a <= n1 <= 0x42 || 0x52 <= n1 <= 0x62
    ensures FixedForSend(s, len).Some? ==>
      var r := FixedForSend(s, len).value;
      && |r| == |s|
      && r[1] == LowByte(len + 1)
      && Some(r[3]) == SendTable(r[1])
      && forall k :: 0 <= k < |s| && k != 1 && k != 3 ==> r[k] == s[k]
  {
    SendTableDomain(LowByte(len + 1));
  }

  /** Where both tables know a length they give the same companion byte. */
  lemma TablesAgree(b: bv8)
    requires ReceiveTable(b).Some? && SendTable(b).Some?
    ensures ReceiveTable(b) == SendTable(b)
  {
  }

  /** The receive table is not part of the send table: it also knows 0x66 and
      0x6a, lengths the send side aborts on. */
  lemma ReceiveOnlyLengths(b: bv8)
    ensures (ReceiveTable(b).Some? && SendTable(b).None?) <==> (b == 0x66 || b == 0x6a)
  {
  }
}
