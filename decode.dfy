/** The field decoders ConvertStreamtoInt (smatool.c:640-656),
    ConvertStreamtoLong (smatool.c:530-546) and ConvertStreamtoTime
    (smatool.c:659-675). The three have the same body: the bytes are read
    least significant first, and a field made only of 0xff bytes is the
    inverter's "no value", which decodes to 0. The source sums through the
    floating-point `pow`; every term is an integer, so the model sums exact
    integers. */
module Decode {
  import opened Bytes

  /** 256 to the power `i`: `pow(256, i)`. */
  function Pow256(i: nat): (p: nat)
    ensures p >= 1
  {
    if i == 0 then 1 else 256 * Pow256(i - 1)
  }

  /** The sum the decoder loop accumulates, one term `s[i] * 256^i` per
      byte, first byte first. */
  function WeightedSum(s: seq<bv8>): nat
  {
    if |s| == 0 then 0 else WeightedSum(s[..|s| - 1]) + Val(s[|s| - 1]) * Pow256(|s| - 1)
  }

  /** The little-endian number the bytes spell, in Horner form: the
      reference definition the loop is checked against. */
  function LittleEndian(s: seq<bv8>): nat
  {
    if |s| == 0 then 0 else Val(s[0]) + 256 * LittleEndian(s[1..])
  }

  /** The "no value" marker: every byte is 0xff. */
  predicate AllFF(s: seq<bv8>)
  {
    forall i :: 0 <= i < |s| ==> s[i] == 0xff
  }

  /** What the decoders return for the field `s`. */
  function StreamValue(s: seq<bv8>): nat
  {
    if AllFF(s) then 0 else LittleEndian(s)
  }

  /** The `length` bytes of `stream` written least significant byte first,
      as the inverter sends them. */
  function ToLittleEndian(v: nat, length: nat): (s: seq<bv8>)
    ensures |s| == length
  {
    if length == 0 then [] else [LowByte(v)] + ToLittleEndian(v / 256, length - 1)
  }

  /** The loop of ConvertStreamto*: `value` accumulates `stream[i]*256^i`
      and `nullvalue` stays 1 while every byte is 0xff. */
  method ConvertStream(stream: seq<bv8>, length: int) returns (value: int)
    requires 0 <= length <= |stream|
    ensures value == StreamValue(stream[..length])
  {
    value := 0;
    var nullvalue := true;
    var i := 0;
    var p := 1;
    while i < length
      invariant 0 <= i <= length && p == Pow256(i)
      invariant value == WeightedSum(stream[..i])
      invariant nullvalue <==> AllFF(stream[..i])
    {
      if stream[i] != 0xff {
        nullvalue := false;
      }
      assert stream[..i + 1][..i] == stream[..i];
      value := value + stream[i] as int * p;
      p := p * 256;
      i := i + 1;
    }
    if nullvalue {
      value := 0;
    }
    WeightedSumIsLittleEndian(stream[..length]);
  }

  // ---------------------------------------------------------------------
  // Properties

  /** A byte prepended to a field counts once; the rest moves up a place. */
  lemma {:induction false} WeightedSumCons(b: bv8, s: seq<bv8>)
    ensures WeightedSum([b] + s) == Val(b) + 256 * WeightedSum(s)
    decreases |s|
  {
    if |s| == 0 {
      assert [b] + s == [b];
    } else {
      var t := s[..|s| - 1];
      var x := Val(s[|s| - 1]);
      var p := Pow256(|s| - 1);
      var bs := [b] + s;
      assert bs[..|s|] == [b] + t && bs[|s|] == s[|s| - 1];
      assert WeightedSum(bs) == WeightedSum([b] + t) + x * Pow256(|s|);
      WeightedSumCons(b, t);
      assert Pow256(|s|) == 256 * p;
      ShiftPlace(x, p);
      assert WeightedSum(s) == WeightedSum(t) + x * p;
    }
  }

  /** Moving a term up one byte place. */
  lemma ShiftPlace(x: int, p: int)
    ensures x * (256 * p) == 256 * (x * p)
  {
  }

  /** The loop's sum is the little-endian value of the field. */
  lemma {:induction false} WeightedSumIsLittleEndian(s: seq<bv8>)
    ensures WeightedSum(s) == LittleEndian(s)
    decreases |s|
  {
    if |s| > 0 {
      assert s == [s[0]] + s[1..];
      WeightedSumCons(s[0], s[1..]);
      WeightedSumIsLittleEndian(s[1..]);
    }
  }

  /** An `n`-byte field spells a number below 256^n. */
  lemma {:induction false} LittleEndianBound(s: seq<bv8>)
    ensures LittleEndian(s) < Pow256(|s|)
    decreases |s|
  {
    if |s| > 0 {
      LittleEndianBound(s[1..]);
    }
  }

  /** Only the all-0xff field spells 256^n - 1. */
  lemma {:induction false} LittleEndianMaximum(s: seq<bv8>)
    ensures LittleEndian(s) == Pow256(|s|) - 1 <==> AllFF(s)
    decreases |s|
  {
    if |s| > 0 {
      LittleEndianBound(s[1..]);
      LittleEndianMaximum(s[1..]);
      if LittleEndian(s) == Pow256(|s|) - 1 {
        assert Val(s[0]) == 255 && LittleEndian(s[1..]) == Pow256(|s| - 1) - 1;
        assert s[0] == 0xff;
      }
      if AllFF(s) {
        assert AllFF(s[1..]);
      }
    }
  }

  /** A decoded field is 0 for "no value" and otherwise any number below
      256^n - 1; the largest n-byte number cannot be told from "no value". */
  lemma StreamValueRange(s: seq<bv8>)
    ensures AllFF(s) ==> StreamValue(s) == 0
    ensures !AllFF(s) ==> StreamValue(s) == LittleEndian(s) && StreamValue(s) < Pow256(|s|) - 1
  {
    LittleEndianBound(s);
    LittleEndianMaximum(s);
  }

  /** Encoding a number below 256^n in n bytes and decoding it gives it
      back. */
  lemma {:induction false} LittleEndianRoundTrip(v: nat, length: nat)
    requires v < Pow256(length)
    ensures LittleEndian(ToLittleEndian(v, length)) == v
    decreases length
  {
    if length > 0 {
      var s := ToLittleEndian(v, length);
      LowByteValue(v);
      assert s[1..] == ToLittleEndian(v / 256, length - 1);
      LittleEndianRoundTrip(v / 256, length - 1);
    }
  }

  /** Decoding a field and encoding the value in as many bytes gives the
      field back. */
  lemma {:induction false} ToLittleEndianOfField(s: seq<bv8>)
    ensures ToLittleEndian(LittleEndian(s), |s|) == s
    decreases |s|
  {
    if |s| > 0 {
      var v := LittleEndian(s);
      assert v % 256 == Val(s[0]) && v / 256 == LittleEndian(s[1..]);
      LowByteOfByte(s[0]);
      ToLittleEndianOfField(s[1..]);
    }
  }

  /** The two-byte fields, such as `togo`: low byte plus 256 times the high
      byte, unless both are 0xff. */
  lemma TwoByteField(s: seq<bv8>)
    requires |s| == 2
    ensures StreamValue(s) == if s == [0xff, 0xff] then 0 else Val(s[0]) + 256 * Val(s[1])
  {
    assert LittleEndian(s[1..][1..]) == 0;
    assert LittleEndian(s[1..]) == Val(s[1]);
    assert AllFF(s) <==> s == [0xff, 0xff] by {
      if AllFF(s) {
        assert s[0] == 0xff && s[1] == 0xff;
      }
    }
  }

  /** The four-byte fields, such as record times. */
  lemma FourByteField(s: seq<bv8>)
    requires |s| == 4 && !AllFF(s)
    ensures StreamValue(s) == Val(s[0]) + 256 * Val(s[1]) + 65536 * Val(s[2]) + 16777216 * Val(s[3])
  {
    var s1 := s[1..];
    var s2 := s1[1..];
    var s3 := s2[1..];
    assert LittleEndian(s3[1..]) == 0;
    assert LittleEndian(s3) == Val(s[3]);
    assert LittleEndian(s2) == Val(s[2]) + 256 * Val(s[3]);
    assert LittleEndian(s1) == Val(s[1]) + 256 * Val(s[2]) + 65536 * Val(s[3]);
  }
}
