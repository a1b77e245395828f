/** Byte-level helpers shared by the link layer model. */
module Bytes {

  /** A value that may be missing. */
  datatype Option<T> = None | Some(value: T)

  /** The byte whose unsigned value is `n`, counted up from zero. Built
      without a conversion from `int`, which the solver handles poorly next
      to byte arithmetic; ByteValue gives its value. */
  function ByteOf(n: nat): bv8
    requires n < 256
  {
    if n == 0 then 0 else ByteOf(n - 1) + 1
  }

  /** C's conversion of an `int` to `unsigned char`: the value modulo 256.
      Dafny's `%` never yields a negative remainder, which is exactly the
      unsigned conversion; LowByteValue states it. */
  function LowByte(x: int): bv8
  {
    ByteOf(x % 256)
  }

  /** ByteOf(n) has the unsigned value n. */
  lemma {:induction false} ByteValue(n: nat)
    requires n < 256
    ensures ByteOf(n) as int == n
  {
    if n > 0 {
      ByteValue(n - 1);
      Successor(ByteOf(n - 1));
    }
  }

  /** Adding one to a byte below 0xff does not wrap. */
  lemma Successor(b: bv8)
    requires b as int < 255
    ensures (b + 1) as int == b as int + 1
  {
  }

  /** The byte C stores for `x` has the value `x` modulo 256. */
  lemma LowByteValue(x: int)
    ensures LowByte(x) as int == x % 256
  {
    ByteValue(x % 256);
  }

  /** Converting a byte's own value gives the byte back. */
  lemma LowByteOfByte(b: bv8)
    ensures LowByte(b as int) == b
  {
    var v := b as int;
    var c := LowByte(v);
    LowByteValue(v);
    assert 0 <= v < 256;
    SmallMod(v);
    assert c as int == v;
    ValueInjective(c, b);
  }

  /** Two bytes with the same unsigned value are the same byte. */
  lemma ValueInjective(a: bv8, b: bv8)
    requires a as int == b as int
    ensures a == b
  {
  }

  /** A number below 256 is its own remainder. */
  lemma SmallMod(v: int)
    requires 0 <= v < 256
    ensures v % 256 == v
  {
  }

  /** Reducing one addend modulo 256 first does not change the sum modulo
      256. */
  lemma AddMod(a: int, d: int)
    ensures (a + d % 256) % 256 == (a + d) % 256
  {
    var q := d / 256;
    assert d == 256 * q + d % 256;
    assert a + d == (a + d % 256) + 256 * q;
  }

  /** A byte read as an unsigned number. */
  function Val(b: bv8): (n: nat)
    ensures n < 256
  {
    b as nat
  }
}
