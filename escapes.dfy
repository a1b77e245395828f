/** The 0x7d octet stuffing of the send path (smatool.c:167-204), after
    section 4.2 of RFC 1662: a byte that must not appear on the wire is sent
    as 0x7d followed by the byte xor 0x20. Besides 0x7d and 0x7e the sender
    also stuffs 0x11, 0x12 and 0x13, and only from byte 19 of the frame on. */
module Escapes {

  /** The escape byte 0x7d. */
  const EscapeByte: bv8 := 0x7d
  /** The mask xor-ed into an escaped byte. */
  const EscapeMask: bv8 := 0x20
  /** add_escapes starts at this offset; the bytes before it are never stuffed. */
  const StuffFrom: nat := 19

  /** The bytes add_escapes stuffs (smatool.c:192-196). */
  predicate NeedsEscape(b: bv8)
  {
    b == 0x7d || b == 0x7e || b == 0x11 || b == 0x12 || b == 0x13
  }

  /** Every byte that needs it replaced by 0x7d, byte ^ 0x20. */
  function EscapeBytes(s: seq<bv8>): seq<bv8>
    decreases |s|
  {
    if |s| == 0 then []
    else (if NeedsEscape(s[0]) then [EscapeByte, s[0] ^ EscapeMask] else [s[0]]) + EscapeBytes(s[1..])
  }

  /** The number of bytes of `s` that need an escape. */
  function CountEscapes(s: seq<bv8>): nat
    decreases |s|
  {
    if |s| == 0 then 0 else (if NeedsEscape(s[0]) then 1 else 0) + CountEscapes(s[1..])
  }

  /** The frame add_escapes produces: the first 19 bytes as they are, every
      later byte stuffed. */
  function Escaped(s: seq<bv8>): seq<bv8>
  {
    if |s| <= StuffFrom then s else s[..StuffFrom] + EscapeBytes(s[StuffFrom..])
  }

  /** The frame strip_escapes produces. Scanning from the left, 0x7d and the
      byte after it become that byte ^ 0x20; any other byte stays. A 0x7d that
      is the last byte of the input has no partner and is dropped. */
  function Unescape(s: seq<bv8>): seq<bv8>
    decreases |s|
  {
    if |s| == 0 then []
    else if s[0] == EscapeByte then (if |s| == 1 then [] else [s[1] ^ EscapeMask] + Unescape(s[2..]))
    else [s[0]] + Unescape(s[1..])
  }

  /** The left-to-right scan ends on a 0x7d that has no byte after it. */
  predicate EndsInLoneEscape(s: seq<bv8>)
    decreases |s|
  {
    if |s| == 0 then false
    else if s[0] == EscapeByte then |s| == 1 || EndsInLoneEscape(s[2..])
    else EndsInLoneEscape(s[1..])
  }

  /** The number of complete 0x7d pairs the scan meets. */
  function PairCount(s: seq<bv8>): nat
    decreases |s|
  {
    if |s| == 0 then 0
    else if s[0] == EscapeByte then (if |s| == 1 then 0 else 1 + PairCount(s[2..]))
    else PairCount(s[1..])
  }

  /** True when no byte of `s` is 0x7d. */
  predicate NoEscapeByte(s: seq<bv8>)
  {
    forall k :: 0 <= k < |s| ==> s[k] != EscapeByte
  }

  // ---------------------------------------------------------------------
  // Lemmas about the specification functions

  /** Stuffing grows the sequence by one byte per escaped byte. */
  lemma {:induction false} EscapeBytesLength(s: seq<bv8>)
    ensures |EscapeBytes(s)| == |s| + CountEscapes(s)
    decreases |s|
  {
    if |s| > 0 {
      EscapeBytesLength(s[1..]);
    }
  }

  /** Stuffing distributes over concatenation. */
  lemma {:induction false} EscapeBytesAppend(a: seq<bv8>, b: seq<bv8>)
    ensures EscapeBytes(a + b) == EscapeBytes(a) + EscapeBytes(b)
    decreases |a|
  {
    if |a| == 0 {
      assert a + b == b;
    } else {
      assert (a + b)[0] == a[0];
      assert (a + b)[1..] == a[1..] + b;
      EscapeBytesAppend(a[1..], b);
    }
  }

  /** What stuffing is for: no byte 0x7e, 0x11, 0x12 or 0x13 is left in the
      stuffed output, and every 0x7d in it leads an escape pair whose second
      byte is one of 0x5d, 0x5e, 0x31, 0x32, 0x33. */
  lemma {:induction false} EscapeBytesClean(s: seq<bv8>, k: nat)
    requires k < |EscapeBytes(s)|
    ensures !NeedsEscape(EscapeBytes(s)[k]) || EscapeBytes(s)[k] == EscapeByte
    ensures EscapeBytes(s)[k] == EscapeByte ==>
      k + 1 < |EscapeBytes(s)| && EscapeBytes(s)[k + 1] in {0x5d, 0x5e, 0x31, 0x32, 0x33}
    decreases |s|
  {
    var head: seq<bv8> := if NeedsEscape(s[0]) then [EscapeByte, s[0] ^ EscapeMask] else [s[0]];
    assert EscapeBytes(s) == head + EscapeBytes(s[1..]);
    if k >= |head| {
      EscapeBytesClean(s[1..], k - |head|);
    }
  }

  /** Unescaping undoes stuffing, byte for byte. */
  lemma {:induction false} UnescapeEscapeBytes(s: seq<bv8>)
    ensures Unescape(EscapeBytes(s)) == s
    decreases |s|
  {
    if |s| > 0 {
      var rest := EscapeBytes(s[1..]);
      if NeedsEscape(s[0]) {
        var e := [EscapeByte, s[0] ^ EscapeMask] + rest;
        assert EscapeBytes(s) == e;
        assert e[0] == EscapeByte && e[1] == s[0] ^ EscapeMask && e[2..] == rest;
        assert (s[0] ^ EscapeMask) ^ EscapeMask == s[0];
      } else {
        var e := [s[0]] + rest;
        assert EscapeBytes(s) == e;
        assert e[0] == s[0] && e[1..] == rest;
      }
      UnescapeEscapeBytes(s[1..]);
      assert s == [s[0]] + s[1..];
    }
  }

  /** Unescaping passes a prefix without 0x7d through unchanged. */
  lemma {:induction false} UnescapePlainPrefix(a: seq<bv8>, b: seq<bv8>)
    requires NoEscapeByte(a)
    ensures Unescape(a + b) == a + Unescape(b)
    decreases |a|
  {
    if |a| > 0 {
      assert (a + b)[0] == a[0];
      assert (a + b)[1..] == a[1..] + b;
      UnescapePlainPrefix(a[1..], b);
      assert a == [a[0]] + a[1..];
    } else {
      assert a + b == b;
    }
  }

  /** The round trip of the send path: when the 19 unstuffed header bytes hold
      no 0x7d, strip_escapes takes back what add_escapes did. */
  lemma EscapeRoundTrip(x: seq<bv8>)
    requires NoEscapeByte(x[..if |x| < StuffFrom then |x| else StuffFrom])
    ensures Unescape(Escaped(x)) == x
  {
    if |x| <= StuffFrom {
      assert x[..|x|] == x;
      UnescapePlainPrefix(x, []);
      assert x + [] == x;
    } else {
      UnescapePlainPrefix(x[..StuffFrom], EscapeBytes(x[StuffFrom..]));
      UnescapeEscapeBytes(x[StuffFrom..]);
      assert x[..StuffFrom] + x[StuffFrom..] == x;
    }
  }

  /** Every complete pair shortens the output by one, and so does a lone
      trailing 0x7d. */
  lemma {:induction false} UnescapeLength(s: seq<bv8>)
    ensures |Unescape(s)| == |s| - PairCount(s) - (if EndsInLoneEscape(s) then 1 else 0)
    decreases |s|
  {
    if |s| > 0 {
      if s[0] == EscapeByte {
        if |s| > 1 {
          UnescapeLength(s[2..]);
        }
      } else {
        UnescapeLength(s[1..]);
      }
    }
  }

  // ---------------------------------------------------------------------
  // One step of each in-place loop, on sequences

  /** A byte that needs no escape moves from the unstuffed part to the
      stuffed part as it is. */
  lemma KeepStep(s: seq<bv8>, i: nat, n: nat)
    requires i < n <= |s| && !NeedsEscape(s[i])
    ensures s[..i + 1] + EscapeBytes(s[i + 1..n]) == s[..i] + EscapeBytes(s[i..n])
    ensures CountEscapes(s[i..n]) == CountEscapes(s[i + 1..n])
  {
    assert s[i..n] == [s[i]] + s[i + 1..n];
    assert s[i..n][1..] == s[i + 1..n];
    assert s[..i + 1] == s[..i] + [s[i]];
  }

  /** The array `t` is `s` after byte `i` was replaced by an escape pair and
      the rest of `s[..n]` moved up by one. */
  lemma StuffStep(s: seq<bv8>, t: seq<bv8>, i: nat, n: nat)
    requires i < n <= |s| && n < |t| && NeedsEscape(s[i])
    requires forall p :: 0 <= p < i ==> t[p] == s[p]
    requires t[i] == EscapeByte && t[i + 1] == s[i] ^ EscapeMask
    requires forall p :: i + 1 < p <= n ==> t[p] == s[p - 1]
    ensures t[..i + 1] + EscapeBytes(t[i + 1..n + 1]) == s[..i] + EscapeBytes(s[i..n])
    ensures CountEscapes(t[i + 1..n + 1]) == CountEscapes(s[i + 1..n])
  {
    var b := s[i];
    assert !NeedsEscape(b ^ EscapeMask);
    assert t[i + 2..n + 1] == s[i + 1..n];
    assert t[i + 1..n + 1] == [b ^ EscapeMask] + s[i + 1..n];
    assert t[i + 1..n + 1][1..] == s[i + 1..n];
    assert s[i..n] == [b] + s[i + 1..n];
    assert s[i..n][1..] == s[i + 1..n];
    assert t[..i] == s[..i];
    assert t[..i + 1] == s[..i] + [EscapeByte];
  }

  /** The array `t` is `s` after the pair at `i` was replaced by one byte and
      the rest of `s[..n]` moved down by one. */
  lemma StripPairStep(s: seq<bv8>, t: seq<bv8>, i: nat, n: nat)
    requires i + 1 < n <= |s| && |t| == |s| && s[i] == EscapeByte
    requires forall p :: 0 <= p < i ==> t[p] == s[p]
    requires t[i] == s[i + 1] ^ EscapeMask
    requires forall p :: i + 1 <= p < n - 1 ==> t[p] == s[p + 1]
    ensures t[..i + 1] + Unescape(t[i + 1..n - 1]) == s[..i] + Unescape(s[i..n])
    ensures EndsInLoneEscape(t[i + 1..n - 1]) == EndsInLoneEscape(s[i..n])
  {
    var rest := s[i..n];
    assert t[..i + 1] == s[..i] + [s[i + 1] ^ EscapeMask] by {
      assert t[..i] == s[..i];
    }
    assert t[i + 1..n - 1] == rest[2..];
    assert Unescape(rest) == [s[i + 1] ^ EscapeMask] + Unescape(rest[2..]);
  }

  /** A lone trailing escape at `i` is dropped, and `t[..i]` is what is left. */
  lemma StripLoneStep(s: seq<bv8>, t: seq<bv8>, i: nat)
    requires i < |s| && |t| == |s|
    requires forall p :: 0 <= p < i ==> t[p] == s[p]
    ensures t[..i] == s[..i]
  {
  }

  /** A byte other than 0x7d moves from the input part to the output part. */
  lemma PlainStep(s: seq<bv8>, i: nat, n: nat, rest: seq<bv8>)
    requires i < n <= |s| && s[i] != EscapeByte && s[i..n] == rest
    ensures s[..i + 1] == s[..i] + [s[i]]
    ensures s[i + 1..n] == rest[1..]
    ensures Unescape(rest) == [s[i]] + Unescape(rest[1..])
    ensures EndsInLoneEscape(rest) == EndsInLoneEscape(rest[1..])
  {
  }

  // ---------------------------------------------------------------------
  // The in-place operations on the send buffer

  /** Moves `cp[i..len]` up by one place (the inner loop of add_escapes,
      smatool.c:197); `cp[..i + 1]` and everything past `len` stay. */
  method ShiftUp(cp: array<bv8>, i: int, len: int)
    requires 0 <= i < len < cp.Length
    modifies cp
    ensures forall p :: 0 <= p <= i ==> cp[p] == old(cp[p])
    ensures forall p :: i < p <= len ==> cp[p] == old(cp[p - 1])
    ensures forall p :: len < p < cp.Length ==> cp[p] == old(cp[p])
  {
    var j := len;
    while j > i
      invariant i <= j <= len
      invariant forall p :: 0 <= p <= j ==> cp[p] == old(cp[p])
      invariant forall p :: j < p <= len ==> cp[p] == old(cp[p - 1])
      invariant forall p :: len < p < cp.Length ==> cp[p] == old(cp[p])
    {
      cp[j] := cp[j - 1];
      j := j - 1;
    }
  }

  /** Moves `cp[from + 1..to]` down by one place (the inner loop of
      strip_escapes, smatool.c:177); nothing outside `cp[from..to - 1]`
      changes. */
  method ShiftDown(cp: array<bv8>, from: int, to: int)
    requires 0 <= from <= to <= cp.Length
    modifies cp
    ensures forall p :: 0 <= p < from ==> cp[p] == old(cp[p])
    ensures forall p :: from <= p < to - 1 ==> cp[p] == old(cp[p + 1])
    ensures forall p :: from <= p < cp.Length && to - 1 <= p ==> cp[p] == old(cp[p])
  {
    var j := from;
    while j < to - 1
      invariant from <= j && (j <= to - 1 || j == from)
      invariant forall p :: 0 <= p < from ==> cp[p] == old(cp[p])
      invariant forall p :: from <= p < j ==> cp[p] == old(cp[p + 1])
      invariant forall p :: j <= p < cp.Length ==> cp[p] == old(cp[p])
    {
      cp[j] := cp[j + 1];
      j := j + 1;
    }
  }

  /** The body of the add_escapes loop (smatool.c:192-201) for byte `i` of a
      frame of length `n`: a byte that needs it becomes an escape pair. */
  method StuffByte(cp: array<bv8>, i: int, n: int) returns (m: int)
    requires 0 <= i < n <= cp.Length
    requires n + CountEscapes(cp[i..n]) <= cp.Length
    modifies cp
    ensures m == n + (if NeedsEscape(old(cp[i])) then 1 else 0)
    ensures cp[..i + 1] + EscapeBytes(cp[i + 1..m]) == old(cp[..i]) + EscapeBytes(old(cp[i..n]))
    ensures m + CountEscapes(cp[i + 1..m]) == n + CountEscapes(old(cp[i..n]))
    ensures forall p :: m <= p < cp.Length ==> cp[p] == old(cp[p])
  {
    m := n;
    ghost var before := cp[..];
    assert before[..i] == cp[..i] && before[i..n] == cp[i..n];
    if NeedsEscape(cp[i]) {
      assert CountEscapes(cp[i..n]) == 1 + CountEscapes(cp[i..n][1..]);
      ShiftUp(cp, i, n);
      cp[i + 1] := cp[i] ^ EscapeMask;
      cp[i] := EscapeByte;
      m := m + 1;
      StuffStep(before, cp[..], i, n);
      assert cp[..][..i + 1] == cp[..i + 1] && cp[..][i + 1..m] == cp[i + 1..m];
      assert before[i + 1..n] == before[i..n][1..];
    } else {
      KeepStep(cp[..], i, n);
      assert cp[..][..i + 1] == cp[..i + 1] && cp[..][i + 1..n] == cp[i + 1..n];
    }
  }

  /** add_escapes: stuffs `cp[19..len]` in place and returns the new length. */
  method AddEscapes(cp: array<bv8>, len: int) returns (newLen: int)
    requires 0 <= len <= cp.Length
    requires |Escaped(cp[..len])| <= cp.Length
    modifies cp
    ensures newLen == |Escaped(old(cp[..len]))|
    ensures cp[..newLen] == Escaped(old(cp[..len]))
    ensures forall p :: newLen <= p < cp.Length ==> cp[p] == old(cp[p])
  {
    ghost var o := cp[..len];
    newLen := len;
    if len <= StuffFrom {
      return;
    }
    EscapeBytesLength(o[StuffFrom..]);
    assert cp[..StuffFrom] == o[..StuffFrom] && cp[StuffFrom..len] == o[StuffFrom..];
    var i := StuffFrom;
    while i < newLen
      invariant StuffFrom <= i <= newLen <= cp.Length
      invariant Escaped(o) == cp[..i] + EscapeBytes(cp[i..newLen])
      invariant newLen + CountEscapes(cp[i..newLen]) <= cp.Length
      invariant forall p :: newLen <= p < cp.Length ==> cp[p] == old(cp[p])
      decreases cp.Length - i
    {
      newLen := StuffByte(cp, i, newLen);
      i := i + 1;
    }
    assert cp[i..newLen] == [];
    assert cp[..i] + [] == cp[..newLen];
  }

  /** The body of the strip_escapes loop (smatool.c:174-180) for byte `i` of
      a frame of length `n`: an escape pair becomes one byte. On a lone 0x7d
      at the end the byte is dropped and `m == i`. */
  method UnstuffByte(cp: array<bv8>, i: int, n: int) returns (m: int)
    requires 0 <= i < n <= cp.Length
    requires n < cp.Length || !EndsInLoneEscape(cp[i..n])
    modifies cp
    ensures m == n - (if old(cp[i]) == EscapeByte then 1 else 0)
    ensures old(cp[i]) == EscapeByte && i + 1 == n ==>
      m == i && cp[..i] == old(cp[..i]) && Unescape(old(cp[i..n])) == []
    ensures !(old(cp[i]) == EscapeByte && i + 1 == n) ==>
      && i < m
      && cp[..i + 1] + Unescape(cp[i + 1..m]) == old(cp[..i]) + Unescape(old(cp[i..n]))
      && EndsInLoneEscape(cp[i + 1..m]) == EndsInLoneEscape(old(cp[i..n]))
    ensures forall p :: n <= p < cp.Length ==> cp[p] == old(cp[p])
  {
    m := n;
    if cp[i] == EscapeByte {
      if i + 1 < n {
        UnstuffPair(cp, i, n);
      } else {
        UnstuffLone(cp, i);
      }
      m := m - 1;
    } else {
      PlainStep(cp[..], i, n, cp[i..n]);
    }
  }

  /** The pair `0x7d b` at `i` becomes the single byte `b ^ 0x20`, and the
      bytes up to `n` move down by one. */
  method UnstuffPair(cp: array<bv8>, i: int, n: int)
    requires 0 <= i && i + 1 < n <= cp.Length && cp[i] == EscapeByte
    modifies cp
    ensures cp[..i + 1] + Unescape(cp[i + 1..n - 1]) == old(cp[..i]) + Unescape(old(cp[i..n]))
    ensures EndsInLoneEscape(cp[i + 1..n - 1]) == EndsInLoneEscape(old(cp[i..n]))
    ensures forall p :: n <= p < cp.Length ==> cp[p] == old(cp[p])
  {
    ghost var before := cp[..];
    cp[i] := cp[i + 1] ^ EscapeMask;
    ShiftDown(cp, i + 1, n);
    StripPairStep(before, cp[..], i, n);
    assert cp[..][..i + 1] == cp[..i + 1] && cp[..][i + 1..n - 1] == cp[i + 1..n - 1];
    assert before[..i] == old(cp[..i]) && before[i..n] == old(cp[i..n]);
  }

  /** A lone 0x7d at the end is dropped; the byte after it, `cp[i + 1]`, is
      read and written back to `cp[i]`, but no longer counts. */
  method UnstuffLone(cp: array<bv8>, i: int)
    requires 0 <= i && i + 1 < cp.Length && cp[i] == EscapeByte
    modifies cp
    ensures cp[..i] == old(cp[..i]) && Unescape(old(cp[i..i + 1])) == []
    ensures forall p :: i + 1 <= p < cp.Length ==> cp[p] == old(cp[p])
  {
    ghost var before := cp[..];
    assert before[i..i + 1] == [EscapeByte];
    cp[i] := cp[i + 1] ^ EscapeMask;
    StripLoneStep(before, cp[..], i);
    assert cp[..][..i] == cp[..i];
  }

  /** strip_escapes: unescapes `cp[..len]` in place and returns the new
      length. The lookahead reads `cp[len]` when the scan ends on a lone
      0x7d, so that byte must exist. */
  method StripEscapes(cp: array<bv8>, len: int) returns (newLen: int)
    requires 0 <= len <= cp.Length
    requires len < cp.Length || !EndsInLoneEscape(cp[..len])
    modifies cp
    ensures newLen == |Unescape(old(cp[..len]))| && newLen <= len
    ensures cp[..newLen] == Unescape(old(cp[..len]))
    ensures forall p :: len <= p < cp.Length ==> cp[p] == old(cp[p])
  {
    ghost var o := cp[..len];
    newLen := len;
    var i := 0;
    assert cp[..0] + cp[0..len] == o;
    while i < newLen
      invariant 0 <= i <= newLen + 1 && newLen <= len
      invariant i == newLen + 1 ==> Unescape(o) == cp[..newLen]
      invariant i <= newLen ==>
        && Unescape(o) == cp[..i] + Unescape(cp[i..newLen])
        && (newLen < cp.Length || !EndsInLoneEscape(cp[i..newLen]))
      invariant forall p :: len <= p < cp.Length ==> cp[p] == old(cp[p])
    {
      newLen := UnstuffByte(cp, i, newLen);
      i := i + 1;
    }
    if i == newLen {
      assert cp[i..newLen] == [];
      assert cp[..i] + [] == cp[..newLen];
    }
  }
}
