/** The outgoing frame buffer: the globals `fl` and `cc` of smatool.c
    (smatool.c:111-112), filled token by token by the `S` directive, and the
    `$CRC` token (smatool.c:1614-1618), which appends the FCS, stuffs the
    frame and fixes its length byte. */
module SendFrame {
  import opened Bytes
  import opened Fcs16
  import opened Escapes
  import opened LengthFix

  /** Size of `fl` (smatool.c:112). */
  const FrameCapacity: nat := 1024

  /** The frame `$CRC` turns `frame` (the `cc` bytes built so far) into:
      the FCS over bytes 19.. appended low byte first, bytes 19.. stuffed,
      then the length byte set; None where fix_length_send aborts. */
  function CrcFrame(frame: seq<bv8>): Option<seq<bv8>>
    requires |frame| >= StuffFrom
  {
    var e := Escaped(frame + Trailer(Fcs(PppInitFcs16, frame[StuffFrom..])));
    if |e| < 4 then None else FixedForSend(e, |e|)
  }

  /** The buffer and its fill level. */
  class SendBuffer {
    var fl: array<bv8>
    var cc: int

    ghost predicate Valid()
      reads this
    {
      fl.Length == FrameCapacity && 0 <= cc <= fl.Length
    }

    /** The bytes of the frame built so far. */
    ghost function Contents(): seq<bv8>
      reads this, fl
      requires Valid()
    {
      fl[..cc]
    }

    /** An empty, zero-filled buffer (smatool.c:112). */
    constructor ()
      ensures Valid() && fresh(fl) && cc == 0
      ensures fl[..] == seq(FrameCapacity, _ => 0)
    {
      fl := new bv8[FrameCapacity](_ => 0);
      cc := 0;
    }

    /** `fl[cc] = b; cc++`, the step every token of a directive takes. */
    method Append(b: bv8)
      requires Valid() && cc < fl.Length
      modifies this, fl
      ensures Valid() && fl == old(fl)
      ensures Contents() == old(Contents()) + [b]
      ensures forall k :: cc <= k < fl.Length ==> fl[k] == old(fl[k])
    {
      fl[cc] := b;
      cc := cc + 1;
      assert fl[..cc] == old(fl[..cc]) + [b];
    }

    /** tryfcs16(fl + offset, len) (smatool.c:262-277): the complemented FCS
        of `fl[offset..offset + len]` is written at `fl[cc]` (low byte) and
        `fl[cc + 1]` (high byte) and `cc` grows by two. */
    method TryFcs16(offset: int, len: int)
      requires Valid() && 0 <= offset && 0 <= len && offset + len <= fl.Length
      requires cc + 2 <= fl.Length
      modifies this, fl
      ensures Valid() && fl == old(fl) && cc == old(cc) + 2
      ensures Contents() == old(Contents()) + Trailer(Fcs(PppInitFcs16, old(fl[offset..offset + len])))
      ensures forall k :: cc <= k < fl.Length ==> fl[k] == old(fl[k])
    {
      var stripped := fl[offset..offset + len];
      var trialfcs := PppFcs16(PppInitFcs16, stripped, len);
      assert stripped[..len] == stripped;
      trialfcs := trialfcs ^ 0xffff;
      fl[cc] := (trialfcs & 0x00ff) as bv8;
      fl[cc + 1] := ((trialfcs >> 8) & 0x00ff) as bv8;
      cc := cc + 2;
      assert fl[..cc] == old(fl[..cc]) + [fl[cc - 2], fl[cc - 1]];
    }

    /** The `$CRC` token (smatool.c:1614-1618); `ok` is false where
        fix_length_send aborts. */
    method Crc() returns (ok: bool)
      requires Valid() && cc >= StuffFrom && cc + 2 <= fl.Length
      requires |Escaped(fl[..cc] + Trailer(Fcs(PppInitFcs16, fl[StuffFrom..cc])))| <= fl.Length
      modifies this, fl
      ensures Valid() && fl == old(fl)
      ensures ok <==> CrcFrame(old(Contents())).Some?
      ensures ok ==> Contents() == CrcFrame(old(Contents())).value
    {
      ghost var frame := fl[..cc];
      assert frame[StuffFrom..] == fl[StuffFrom..cc];
      TryFcs16(StuffFrom, cc - StuffFrom);
      ghost var f := fl[..cc];
      assert f == frame + Trailer(Fcs(PppInitFcs16, frame[StuffFrom..]));
      cc := AddEscapes(fl, cc);
      ghost var e := fl[..cc];
      assert e == Escaped(f);
      assert |e| >= 4;
      ghost var before := fl[..];
      ok := FixLengthSend(fl, cc);
      if ok {
        assert before[..][..cc] == e;
        assert fl[..cc] == FixedForSend(e, cc).value by {
          assert fl[..cc] == FixedForSend(before, cc).value[..cc];
        }
      } else {
        assert FixedForSend(before, cc).None?;
      }
    }
  }

  // ---------------------------------------------------------------------
  // Properties of the frame `$CRC` builds

  /** Stuffing only touches bytes 19.., so the stuffed tail is the stuffing
      of the tail. */
  lemma EscapedTail(x: seq<bv8>)
    requires |x| >= StuffFrom
    ensures Escaped(x)[..StuffFrom] == x[..StuffFrom]
    ensures Escaped(x)[StuffFrom..] == EscapeBytes(x[StuffFrom..])
  {
  }

  /** The frame `$CRC` sends checks: unstuffing bytes 19.. gives back the
      payload plus its FCS trailer, and running the FCS over that gives the
      good residue 0xf0b8 of Appendix C.2 of RFC 1662. */
  lemma CrcFrameChecks(frame: seq<bv8>)
    requires |frame| >= StuffFrom && CrcFrame(frame).Some?
    ensures var s := CrcFrame(frame).value;
      && |s| >= StuffFrom + 2
      && Unescape(s[StuffFrom..]) == frame[StuffFrom..] + Trailer(Fcs(PppInitFcs16, frame[StuffFrom..]))
      && Fcs(PppInitFcs16, Unescape(s[StuffFrom..])) == PppGoodFcs16
  {
    var t := Trailer(Fcs(PppInitFcs16, frame[StuffFrom..]));
    var f := frame + t;
    var s := CrcFrame(frame).value;
    StuffedTail(frame, s, t, f);
    UnescapeEscapeBytes(f[StuffFrom..]);
    GoodResidue(frame[StuffFrom..]);
  }

  /** The bytes from 19 on of the frame sent are the stuffing of the payload
      and trailer from 19 on. */
  lemma StuffedTail(frame: seq<bv8>, s: seq<bv8>, t: seq<bv8>, f: seq<bv8>)
    requires |frame| >= StuffFrom && CrcFrame(frame) == Some(s)
    requires t == Trailer(Fcs(PppInitFcs16, frame[StuffFrom..])) && f == frame + t
    ensures |s| >= StuffFrom + 2
    ensures s[StuffFrom..] == EscapeBytes(f[StuffFrom..])
    ensures f[StuffFrom..] == frame[StuffFrom..] + t
  {
    var e := Escaped(f);
    EscapedTail(f);
    EscapeBytesLength(f[StuffFrom..]);
    assert s[StuffFrom..] == e[StuffFrom..];
  }

  /** The header bytes 0, 2 and 4..18 are sent as built, and the length byte
      is the sent length plus one for the 0x7e that follows. */
  lemma CrcFrameHeader(frame: seq<bv8>)
    requires |frame| >= StuffFrom && CrcFrame(frame).Some?
    ensures var s := CrcFrame(frame).value;
      && |s| >= StuffFrom
      && s[1] == LowByte(|s| + 1)
      && (forall k :: 0 <= k < StuffFrom && k != 1 && k != 3 ==> s[k] == frame[k])
  {
    var f := frame + Trailer(Fcs(PppInitFcs16, frame[StuffFrom..]));
    var e := Escaped(f);
    EscapedTail(f);
    assert forall k :: 0 <= k < StuffFrom ==> e[k] == frame[k];
  }
}
