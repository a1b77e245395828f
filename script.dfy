/** Pieces of the script interpreter in `main` (smatool.c): the hex token
    conversion `conv`, the token lookup `select_str`, and the bytes the `S`
    directive appends for the `$PASSWORD` and `$TIME` tokens. Script text
    is read as C `char`s, so every character below has a code under 256. */
module Script {
  import opened Bytes
  import opened Decode

  // ---------------------------------------------------------------------
  // conv (smatool.c:280-325)

  /** Character `i` of a C string: past the end there is the NUL. */
  function CharAt(s: string, i: nat): char
  {
    if i < |s| then s[i] else '\0'
  }

  /** The value conv gives one character (its `tt`): 10..15 for A-F and
      a-f, otherwise the character code less '0', stored in an unsigned
      char. */
  function DigitValue(c: char): bv8
  {
    if 'A' <= c <= 'F' then LowByte(c as int - 'A' as int + 10)
    else if 'a' <= c <= 'f' then LowByte(c as int - 'a' as int + 10)
    else LowByte(c as int - '0' as int)
  }

  /** The byte conv returns for the characters `hi` and `lo`: sixteen times
      the first value plus the second, kept to eight bits. */
  function ConvByte(hi: char, lo: char): bv8
  {
    LowByte(16 * Val(DigitValue(hi)) + Val(DigitValue(lo)))
  }

  /** conv(nn): two passes, the first weighing its digit by 16 and the
      second by 1, each sum stored back into the unsigned char `res`. A
      one-character token reads its terminating NUL as the second digit. */
  method Conv(nn: string) returns (res: bv8)
    requires |nn| >= 1
    ensures res == ConvByte(nn[0], CharAt(nn, 1))
  {
    res := 0;
    var i := 0;
    while i < 2
      invariant 0 <= i <= 2
      invariant i == 0 ==> res == 0
      invariant i == 1 ==> res == LowByte(16 * Val(DigitValue(nn[0])))
      invariant i == 2 ==> res == ConvByte(nn[0], CharAt(nn, 1))
    {
      var tt := DigitValue(CharAt(nn, i));
      var place := if i == 0 then 16 else 1;
      if i == 1 {
        LowByteAdd(16 * Val(DigitValue(nn[0])), Val(tt));
      } else {
        assert res as int + Val(tt) * place == 16 * Val(DigitValue(nn[0]));
      }
      res := LowByte(res as int + Val(tt) * place);
      i := i + 1;
    }
  }

  /** Storing an intermediate sum in a byte does not change the final byte. */
  lemma LowByteAdd(x: int, y: int)
    ensures LowByte(LowByte(x) as int + y) == LowByte(x + y)
  {
    LowByteValue(x);
    AddMod(y, x);
    assert (LowByte(x) as int + y) % 256 == (x + y) % 256;
  }

  /** A hexadecimal digit, in either case. */
  predicate IsHexDigit(c: char)
  {
    '0' <= c <= '9' || 'a' <= c <= 'f' || 'A' <= c <= 'F'
  }

  /** The value of a hexadecimal digit, the reference conv is checked
      against. */
  function HexValue(c: char): (v: nat)
    requires IsHexDigit(c)
    ensures v < 16
  {
    if '0' <= c <= '9' then c as int - '0' as int
    else if 'a' <= c <= 'f' then c as int - 'a' as int + 10
    else c as int - 'A' as int + 10
  }

  /** The lower-case digit printf's `%x` writes for `d`. */
  function HexChar(d: nat): (c: char)
    requires d < 16
    ensures IsHexDigit(c)
  {
    if d < 10 then ('0' as int + d) as char else ('a' as int + d - 10) as char
  }

  /** conv reads a digit as its hexadecimal value. */
  lemma DigitValueOfHex(c: char)
    requires IsHexDigit(c)
    ensures Val(DigitValue(c)) == HexValue(c)
  {
    var n := HexValue(c);
    if 'A' <= c <= 'F' {
      assert DigitValue(c) == LowByte(n);
    } else if 'a' <= c <= 'f' {
      assert DigitValue(c) == LowByte(n);
    } else {
      assert DigitValue(c) == LowByte(n);
    }
    LowByteValue(n);
    SmallMod(n);
  }

  /** On two hexadecimal digits, of either case, conv returns the byte they
      spell, most significant digit first. */
  lemma ConvHexPair(hi: char, lo: char)
    requires IsHexDigit(hi) && IsHexDigit(lo)
    ensures Val(ConvByte(hi, lo)) == 16 * HexValue(hi) + HexValue(lo)
  {
    DigitValueOfHex(hi);
    DigitValueOfHex(lo);
    var n := 16 * HexValue(hi) + HexValue(lo);
    assert ConvByte(hi, lo) == LowByte(n);
    assert 0 <= n < 256;
    LowByteValue(n);
    SmallMod(n);
  }

  /** conv undoes the two-digit `%02x` rendering of a byte. */
  lemma ConvRoundTrip(b: bv8)
    ensures ConvByte(HexChar(Val(b) / 16), HexChar(Val(b) % 16)) == b
  {
    var hi := HexChar(Val(b) / 16);
    var lo := HexChar(Val(b) % 16);
    assert HexValue(hi) == Val(b) / 16 && HexValue(lo) == Val(b) % 16;
    ConvHexPair(hi, lo);
    assert Val(ConvByte(hi, lo)) == Val(b);
    ValueInjective(ConvByte(hi, lo), b);
  }

  // ---------------------------------------------------------------------
  // select_str (smatool.c:79-108, 418-427)

  /** The tokens the script may use, in the order that gives them their
      numbers in the interpreter's switch statements. */
  const AcceptedStrings: seq<string> := [
    "$END", "$ADDR", "$TIME", "$SER", "$CRC", "$POW", "$DTOT", "$ADD2",
    "$CHAN", "$ITIME", "$TMMI", "$TMPL", "$TIMESTRING", "$TIMEFROM1",
    "$TIMETO1", "$TIMEFROM2", "$TIMETO2", "$TESTDATA", "$ARCHIVEDATA1",
    "$PASSWORD", "$SIGNAL", "$UNKNOWN", "$INVCODE", "$ARCHCODE",
    "$INVERTERDATA", "$CNT", "$TIMEZONE", "$TIMESET"]

  /** select_str: the number of the token `s`, or -1 for any other word
      (which the directives then read as a hex byte). */
  method SelectStr(s: string) returns (r: int)
    ensures -1 <= r < |AcceptedStrings|
    ensures r == -1 <==> s !in AcceptedStrings
    ensures r >= 0 ==> AcceptedStrings[r] == s
  {
    var i := 0;
    while i < |AcceptedStrings|
      invariant 0 <= i <= |AcceptedStrings|
      invariant forall k :: 0 <= k < i ==> AcceptedStrings[k] != s
    {
      if s == AcceptedStrings[i] {
        return i;
      }
      i := i + 1;
    }
    return -1;
  }

  /** No token is listed twice, so the number select_str finds is the only
      one the word has. */
  lemma AcceptedDistinct(s: string, r: int)
    requires 0 <= r < |AcceptedStrings| && AcceptedStrings[r] == s
    ensures forall k :: 0 <= k < |AcceptedStrings| && AcceptedStrings[k] == s ==> k == r
  {
    forall k | 0 <= k < |AcceptedStrings| && AcceptedStrings[k] == s
      ensures k == r
    {
      if k < r {
        AllDistinct(k, r);
      } else if r < k {
        AllDistinct(r, k);
      }
    }
  }

  /** Any two entries at different places differ. */
  lemma AllDistinct(i: int, j: int)
    requires 0 <= i < j < |AcceptedStrings|
    ensures AcceptedStrings[i] != AcceptedStrings[j]
  {
  }

  // ---------------------------------------------------------------------
  // $PASSWORD (smatool.c:1754-1766)

  /** Length of the password field. */
  const PasswordLength: nat := 12
  /** The byte that fills the field after the last character. */
  const PasswordPad: bv8 := 0x88

  /** A text of C `char`s with no NUL inside: what a C string can hold. */
  predicate IsCString(s: string)
  {
    forall k :: 0 <= k < |s| ==> s[k] != '\0' && s[k] as int < 256
  }

  /** A `char` read as the signed byte it is on the usual targets. */
  function SignedChar(c: char): (v: int)
    requires c as int < 256
    ensures -128 <= v < 128
  {
    if c as int < 128 then c as int else c as int - 256
  }

  /** The byte smatool.c:1761 stores for one password character, as
      written: `(pass_i + 0x88) % 0xff`. The sum is at least 8, so C's `%`
      and Dafny's agree. */
  function PasswordByteAsWritten(c: char): bv8
    requires c as int < 256
  {
    LowByte((SignedChar(c) + 0x88) % 0xff)
  }

  /** The intended encoding: 0x88 added to the character's byte, modulo 256.
      The padding byte 0x88 is this encoding applied to NUL. */
  function PasswordByte(c: char): bv8
    requires c as int < 256
  {
    LowByte(c as int + 0x88)
  }

  /** The field for `password`: one encoded byte per character of the first
      twelve, then the padding. */
  function PasswordField(password: string): (f: seq<bv8>)
    requires IsCString(password)
    ensures |f| == PasswordLength
  {
    seq(PasswordLength, k requires 0 <= k < PasswordLength =>
      if k < |password| then PasswordByte(password[k]) else PasswordPad)
  }

  /** The field as smatool.c:1761 writes it: the `% 0xff` encoding of each
      of the first twelve characters, then the padding. */
  function PasswordFieldAsWritten(password: string): (f: seq<bv8>)
    requires IsCString(password)
    ensures |f| == PasswordLength
  {
    seq(PasswordLength, k requires 0 <= k < PasswordLength =>
      if k < |password| then PasswordByteAsWritten(password[k]) else PasswordPad)
  }

  /** The `$PASSWORD` loop: twelve bytes, the index `j` into the password
      stopping at its NUL, each character stored as the source writes it. */
  method PasswordBytes(password: string) returns (field: seq<bv8>)
    requires IsCString(password)
    ensures field == PasswordFieldAsWritten(password)
  {
    field := [];
    var j := 0;
    var i := 0;
    while i < PasswordLength
      invariant 0 <= i <= PasswordLength && j == if i < |password| then i else |password|
      invariant |field| == i
      invariant forall k :: 0 <= k < i ==> field[k] == PasswordFieldAsWritten(password)[k]
    {
      if CharAt(password, j) == '\0' {
        field := field + [PasswordPad];
      } else {
        field := field + [PasswordByteAsWritten(password[j])];
        j := j + 1;
      }
      i := i + 1;
    }
  }

  /** As written, the characters 'w' (119) up to DEL (127) encode one higher
      than the intended sum modulo 256, and every other character encodes
      the same. */
  lemma PasswordModulus(c: char)
    requires c as int < 256
    ensures PasswordByteAsWritten(c) == PasswordByte(c) <==> !(119 <= c as int <= 127)
    ensures 119 <= c as int <= 127 ==> Val(PasswordByteAsWritten(c)) == (Val(PasswordByte(c)) + 1) % 256
  {
    var w := (SignedChar(c) + 0x88) % 0xff;
    var x := (c as int + 0x88) % 256;
    PasswordSums(c);
    LowByteValue(w);
    LowByteValue(c as int + 0x88);
    SmallMod(w);
    if w == x {
      ValueInjective(PasswordByteAsWritten(c), PasswordByte(c));
    }
  }

  /** The same on the sums before they are stored: `w` as written, `x`
      intended. */
  lemma PasswordSums(c: char)
    requires c as int < 256
    ensures var w := (SignedChar(c) + 0x88) % 0xff; var x := (c as int + 0x88) % 256;
      0 <= w < 255 && (w == x <==> !(119 <= c as int <= 127)) && (119 <= c as int <= 127 ==> w == (x + 1) % 256)
  {
    var v := c as int;
    if v < 119 {
      ModRange(SignedChar(c) + 0x88, 0xff, 0);
      ModRange(v + 0x88, 256, 0);
    } else if v < 128 {
      ModRange(SignedChar(c) + 0x88, 0xff, 1);
      if v == 119 {
        ModRange(v + 0x88, 256, 0);
      } else {
        ModRange(v + 0x88, 256, 1);
        ModRange(v + 0x88 - 256 + 1, 256, 0);
      }
    } else {
      ModRange(SignedChar(c) + 0x88, 0xff, 0);
      ModRange(v + 0x88, 256, 1);
    }
  }

  /** The remainder of a number between `q*m` and `(q+1)*m`. */
  lemma ModRange(x: int, m: int, q: int)
    requires m > 0 && q * m <= x < (q + 1) * m
    ensures x % m == x - q * m
  {
    DivUnique(x, m, q, x - q * m);
  }

  /** The input that shows it: 'w' is sent as 0x00 where 0xff is meant, and
      DEL and the byte 0x80 are both sent as 0x08. */
  lemma PasswordModulusWitness()
    ensures PasswordByteAsWritten('w') == 0x00 && PasswordByte('w') == 0xff
    ensures PasswordByteAsWritten(127 as char) == PasswordByteAsWritten(128 as char) == 0x08
  {
    LowByteOfByte(0x00);
    LowByteOfByte(0x08);
    LowByteOfByte(0xff);
    assert (SignedChar('w') + 0x88) % 0xff == 0;
    assert (SignedChar(127 as char) + 0x88) % 0xff == 8;
    assert (SignedChar(128 as char) + 0x88) % 0xff == 8;
    assert 'w' as int + 0x88 == 0xff + 0 * 256;
  }

  /** The field sent is the intended one exactly when none of the first
      twelve characters lies in 'w'..DEL. */
  lemma PasswordFieldsAgree(p: string)
    requires IsCString(p)
    ensures PasswordFieldAsWritten(p) == PasswordField(p) <==>
      forall k :: 0 <= k < |p| && k < PasswordLength ==> !(119 <= p[k] as int <= 127)
  {
    if forall k :: 0 <= k < |p| && k < PasswordLength ==> !(119 <= p[k] as int <= 127) {
      forall k | 0 <= k < PasswordLength
        ensures PasswordFieldAsWritten(p)[k] == PasswordField(p)[k]
      {
        if k < |p| {
          PasswordModulus(p[k]);
        }
      }
    }
    if PasswordFieldAsWritten(p) == PasswordField(p) {
      forall k | 0 <= k < |p| && k < PasswordLength
        ensures !(119 <= p[k] as int <= 127)
      {
        assert PasswordFieldAsWritten(p)[k] == PasswordField(p)[k];
        PasswordModulus(p[k]);
      }
    }
  }

  /** Subtracting 0x88 from an encoded byte gives the character back, and
      NUL encodes as the padding byte. */
  lemma PasswordByteDecodes(c: char)
    requires c as int < 256
    ensures LowByte(Val(PasswordByte(c)) - 0x88) == LowByte(c as int)
    ensures PasswordByte('\0') == PasswordPad
  {
    var v := c as int;
    LowByteValue(v + 0x88);
    SubMod(v + 0x88, 0x88);
    assert (Val(PasswordByte(c)) - 0x88) % 256 == v % 256;
    LowByteOfByte(PasswordPad);
  }

  /** Reducing the minuend modulo 256 first does not change the difference
      modulo 256. */
  lemma SubMod(a: int, d: int)
    ensures (a % 256 - d) % 256 == (a - d) % 256
  {
    var q := a / 256;
    assert a == 256 * q + a % 256;
    assert a - d == (a % 256 - d) + 256 * q;
  }

  /** Distinct characters give distinct bytes. */
  lemma PasswordByteInjective(c: char, d: char)
    requires c as int < 256 && d as int < 256 && PasswordByte(c) == PasswordByte(d)
    ensures c == d
  {
    PasswordByteDecodes(c);
    PasswordByteDecodes(d);
    assert LowByte(c as int) == LowByte(d as int);
    LowByteValue(c as int);
    LowByteValue(d as int);
    SmallMod(c as int);
    SmallMod(d as int);
    assert c as int == d as int;
  }

  /** The field of a password of at most twelve characters determines the
      password. */
  lemma PasswordFieldInjective(p: string, q: string)
    requires IsCString(p) && IsCString(q) && |p| <= PasswordLength && |q| <= PasswordLength
    requires PasswordField(p) == PasswordField(q)
    ensures p == q
  {
    if |p| != |q| {
      var m := if |p| < |q| then |p| else |q|;
      SameCharAt(p, q, m);
      assert false;
    }
    forall k | 0 <= k < |p|
      ensures p[k] == q[k]
    {
      SameCharAt(p, q, k);
    }
  }

  /** Equal fields hold the same character at every place. */
  lemma SameCharAt(p: string, q: string, k: nat)
    requires IsCString(p) && IsCString(q) && k < PasswordLength
    requires PasswordField(p) == PasswordField(q)
    ensures CharAt(p, k) == CharAt(q, k)
  {
    assert PasswordField(p)[k] == PasswordField(q)[k];
    CharField(p, k);
    CharField(q, k);
    PasswordByteInjective(CharAt(p, k), CharAt(q, k));
  }

  /** Byte `k` of the field is the encoding of character `k`, NUL past the
      end. */
  lemma CharField(p: string, k: nat)
    requires IsCString(p) && k < PasswordLength
    ensures PasswordField(p)[k] == PasswordByte(CharAt(p, k))
  {
    PasswordByteDecodes(CharAt(p, k));
  }

  // ---------------------------------------------------------------------
  // $TIME, $TMPL, $TMMI (smatool.c:1579-1610)

  /** 16 to the power `i`. */
  function Pow16(i: nat): (p: nat)
    ensures p >= 1
  {
    if i == 0 then 1 else 16 * Pow16(i - 1)
  }

  /** `(int)t` as `%x` sees it: the 32-bit word of `t`. */
  function TimeWord(t: int): (u: nat)
    ensures u < 0x1_0000_0000
  {
    t % 0x1_0000_0000
  }

  /** printf's `%x`: lower-case digits, most significant first, no leading
      zeros. */
  function HexString(u: nat): (s: string)
    ensures |s| >= 1
    decreases u
  {
    if u < 16 then [HexChar(u)] else HexString(u / 16) + [HexChar(u % 16)]
  }

  /** The bytes a time token appends: the hex text of the word read two
      digits at a time from the end, that is least significant byte first.
      The text has its full eight digits for every word from 0x10000000 on,
      which is every time after 1978. */
  method TimeBytes(t: int) returns (bytes: seq<bv8>)
    requires TimeWord(t) >= 0x1000_0000
    ensures bytes == ToLittleEndian(TimeWord(t), 4)
  {
    var u := TimeWord(t);
    var tt := HexString(u);
    EightDigits();
    HexStringLength(u, 8);
    bytes := [];
    var i := 7;
    ghost var k := 0;
    while i > 0
      invariant 0 <= k <= 4 && i == 7 - 2 * k
      invariant bytes == ToLittleEndian(u, 4)[..k]
    {
      var ti := [tt[i - 1], tt[i]];
      var b := Conv(ti);
      assert CharAt(ti, 1) == tt[7 - 2 * k];
      TimePair(u, k);
      assert ToLittleEndian(u, 4)[..k + 1] == bytes + [b];
      bytes := bytes + [b];
      i := i - 2;
      k := k + 1;
    }
  }

  /** Within 16^(n-1) .. 16^n - 1 the hex text has n digits. */
  lemma {:induction false} HexStringLength(u: nat, n: nat)
    requires n >= 1 && Pow16(n - 1) <= u < Pow16(n)
    ensures |HexString(u)| == n
    decreases n
  {
    if n > 1 {
      assert u >= 16;
      DivBounds(u, Pow16(n - 2), Pow16(n - 1));
      HexStringLength(u / 16, n - 1);
    }
  }

  /** Dividing by 16 keeps a number within the bounds divided by 16. */
  lemma DivBounds(u: nat, lo: nat, hi: nat)
    requires 16 * lo <= u < 16 * hi
    ensures lo <= u / 16 < hi
  {
  }

  /** Digit `m` of the hex text is the digit of `u` of weight
      16^(length - 1 - m). */
  lemma {:induction false} HexStringDigit(u: nat, m: nat)
    requires m < |HexString(u)|
    ensures HexString(u)[m] == HexChar(u / Pow16(|HexString(u)| - 1 - m) % 16)
    decreases u
  {
    if u >= 16 {
      var s := HexString(u / 16);
      if m < |s| {
        HexStringDigit(u / 16, m);
        DivDiv(u, 16, Pow16(|s| - 1 - m));
      }
    }
  }

  /** Dividing twice is dividing by the product. */
  lemma DivDiv(u: nat, a: nat, b: nat)
    requires a > 0 && b > 0
    ensures u / a / b == u / (a * b)
  {
    var q := u / (a * b);
    var r := u % (a * b);
    var r1 := r / a;
    var r0 := r % a;
    assert r1 < b;
    assert u == a * (b * q + r1) + r0;
    DivUnique(u, a, b * q + r1, r0);
    DivUnique(b * q + r1, b, q, r1);
  }

  /** The quotient is the unique one with a remainder in range. */
  lemma DivUnique(u: int, a: int, q: int, r: int)
    requires a > 0 && u == a * q + r && 0 <= r < a
    ensures u / a == q
  {
    var q' := u / a;
    var r' := u % a;
    assert u == a * q' + r';
    if q < q' {
      assert a * (q' - q) == a * q' - a * q;
      MulAtLeast(a, q' - q);
    } else if q' < q {
      assert a * (q - q') == a * q - a * q';
      MulAtLeast(a, q - q');
    }
  }

  /** A positive multiple of `a` is at least `a`. */
  lemma MulAtLeast(a: int, k: int)
    requires a > 0 && k >= 1
    ensures a * k >= a
  {
    assert a * k == a * (k - 1) + a;
  }

  /** The powers of 16 that bound an eight-digit word. */
  lemma EightDigits()
    ensures Pow16(7) == 0x1000_0000 && Pow16(8) == 0x1_0000_0000
  {
    assert Pow16(2) == 256;
    assert Pow16(4) == 65536;
    assert Pow16(6) == 0x100_0000;
  }

  /** Two adjacent hex digits of `x` make its low byte. */
  lemma PairOfDigits(x: nat)
    ensures 16 * (x / 16 % 16) + x % 16 == x % 256
  {
    var q := x / 16;
    var r := x % 16;
    var q1 := q / 16;
    var r1 := q % 16;
    assert x == 256 * q1 + (16 * r1 + r);
    DivUnique(x, 256, q1, 16 * r1 + r);
  }

  /** 16^(2k) = 256^k. */
  lemma {:induction false} PowSquare(k: nat)
    ensures Pow16(2 * k) == Pow256(k)
  {
    if k > 0 {
      PowSquare(k - 1);
      assert Pow16(2 * k) == 16 * (16 * Pow16(2 * (k - 1)));
    }
  }

  /** Byte `k` of the little-endian encoding is the value divided by
      256^k, kept to eight bits. */
  lemma {:induction false} ToLittleEndianByte(v: nat, n: nat, k: nat)
    requires k < n
    ensures ToLittleEndian(v, n)[k] == LowByte(v / Pow256(k))
    decreases k
  {
    if k > 0 {
      ToLittleEndianByte(v / 256, n - 1, k - 1);
      DivDiv(v, 256, Pow256(k - 1));
    }
  }

  /** The digits the time loop hands to conv for byte `k` make that byte of
      the little-endian encoding. */
  lemma TimePair(u: nat, k: nat)
    requires 0x1000_0000 <= u < 0x1_0000_0000 && k < 4
    ensures |HexString(u)| == 8
    ensures ConvByte(HexString(u)[6 - 2 * k], HexString(u)[7 - 2 * k]) == ToLittleEndian(u, 4)[k]
  {
    var x := TimeDigits(u, k);
    ByteOfDigits(x);
    PowSquare(k);
    ToLittleEndianByte(u, 4, k);
  }

  /** The two digits for byte `k` are the last two hex digits of
      `u / 16^(2k)`. */
  lemma TimeDigits(u: nat, k: nat) returns (x: nat)
    requires 0x1000_0000 <= u < 0x1_0000_0000 && k < 4
    ensures |HexString(u)| == 8 && x == u / Pow16(2 * k)
    ensures HexString(u)[6 - 2 * k] == HexChar(x / 16 % 16)
    ensures HexString(u)[7 - 2 * k] == HexChar(x % 16)
  {
    EightDigits();
    HexStringLength(u, 8);
    HexStringDigit(u, 6 - 2 * k);
    HexStringDigit(u, 7 - 2 * k);
    x := u / Pow16(2 * k);
    DivDiv(u, Pow16(2 * k), 16);
    assert Pow16(2 * k + 1) == Pow16(2 * k) * 16;
  }

  /** conv on the last two hex digits of `x` gives the low byte of `x`. */
  lemma ByteOfDigits(x: nat)
    ensures ConvByte(HexChar(x / 16 % 16), HexChar(x % 16)) == LowByte(x)
  {
    var c := ConvByte(HexChar(x / 16 % 16), HexChar(x % 16));
    ConvOfHexChars(x / 16 % 16, x % 16);
    PairOfDigits(x);
    LowByteValue(x);
    assert Val(c) == Val(LowByte(x));
    ValueInjective(c, LowByte(x));
  }

  /** conv on the `%x` digits of `a` and `b` gives `16 * a + b`. */
  lemma ConvOfHexChars(a: nat, b: nat)
    requires a < 16 && b < 16
    ensures Val(ConvByte(HexChar(a), HexChar(b))) == 16 * a + b
  {
    assert HexValue(HexChar(a)) == a;
    assert HexValue(HexChar(b)) == b;
    ConvHexPair(HexChar(a), HexChar(b));
  }

  /** The inverter reads the time back with ConvertStreamtoTime: it gets
      the 32-bit word, except that 0xffffffff reads as "no value". */
  lemma TimeRoundTrip(t: int)
    ensures TimeWord(t) != 0xffff_ffff ==> StreamValue(ToLittleEndian(TimeWord(t), 4)) == TimeWord(t)
    ensures TimeWord(t) == 0xffff_ffff ==> StreamValue(ToLittleEndian(TimeWord(t), 4)) == 0
  {
    var u := TimeWord(t);
    var s := ToLittleEndian(u, 4);
    assert Pow256(4) == 0x1_0000_0000;
    LittleEndianRoundTrip(u, 4);
    LittleEndianMaximum(s);
  }
}
