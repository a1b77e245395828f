/** The 16-bit frame check sequence of the send path (smatool.c:114-165,
    262-277). It is the table-driven FCS of Appendix C.2 of RFC 1662: the
    value starts at 0xffff, every byte is folded in through a 256-entry table,
    and a frame followed by its complemented FCS (low byte first) leaves the
    fixed residue 0xf0b8. */
module Fcs16 {

  /** Initial FCS value (PPPINITFCS16). */
  const PppInitFcs16: bv16 := 0xffff
  /** Final FCS value of a frame that carries a correct FCS (PPPGOODFCS16). */
  const PppGoodFcs16: bv16 := 0xf0b8

  /** The lookup table `fcstab`, entry by entry as in the source. Entry `i`
      is column `i & 0xf` of row `i >> 4` below; each row holds two lines of
      the source table. */
  function FcsTab(i: bv8): bv16
  {
    var c := i & 0xf;
    match i >> 4
    case 0x0 => FcsRow0(c)
    case 0x1 => FcsRow1(c)
    case 0x2 => FcsRow2(c)
    case 0x3 => FcsRow3(c)
    case 0x4 => FcsRow4(c)
    case 0x5 => FcsRow5(c)
    case 0x6 => FcsRow6(c)
    case 0x7 => FcsRow7(c)
    case 0x8 => FcsRow8(c)
    case 0x9 => FcsRow9(c)
    case 0xa => FcsRowA(c)
    case 0xb => FcsRowB(c)
    case 0xc => FcsRowC(c)
    case 0xd => FcsRowD(c)
    case 0xe => FcsRowE(c)
    case _   => FcsRowF(c)
  }

  function FcsRow0(c: bv8): bv16
  {
    match c
    case 0x0 => 0x0000 case 0x1 => 0x1189 case 0x2 => 0x2312 case 0x3 => 0x329b case 0x4 => 0x4624 case 0x5 => 0x57ad case 0x6 => 0x6536 case 0x7 => 0x74bf
    case 0x8 => 0x8c48 case 0x9 => 0x9dc1 case 0xa => 0xaf5a case 0xb => 0xbed3 case 0xc => 0xca6c case 0xd => 0xdbe5 case 0xe => 0xe97e case _ => 0xf8f7
  }

  function FcsRow1(c: bv8): bv16
  {
    match c
    case 0x0 => 0x1081 case 0x1 => 0x0108 case 0x2 => 0x3393 case 0x3 => 0x221a case 0x4 => 0x56a5 case 0x5 => 0x472c case 0x6 => 0x75b7 case 0x7 => 0x643e
    case 0x8 => 0x9cc9 case 0x9 => 0x8d40 case 0xa => 0xbfdb case 0xb => 0xae52 case 0xc => 0xdaed case 0xd => 0xcb64 case 0xe => 0xf9ff case _ => 0xe876
  }

  function FcsRow2(c: bv8): bv16
  {
    match c
    case 0x0 => 0x2102 case 0x1 => 0x308b case 0x2 => 0x0210 case 0x3 => 0x1399 case 0x4 => 0x6726 case 0x5 => 0x76af case 0x6 => 0x4434 case 0x7 => 0x55bd
    case 0x8 => 0xad4a case 0x9 => 0xbcc3 case 0xa => 0x8e58 case 0xb => 0x9fd1 case 0xc => 0xeb6e case 0xd => 0xfae7 case 0xe => 0xc87c case _ => 0xd9f5
  }

  function FcsRow3(c: bv8): bv16
  {
    match c
    case 0x0 => 0x3183 case 0x1 => 0x200a case 0x2 => 0x1291 case 0x3 => 0x0318 case 0x4 => 0x77a7 case 0x5 => 0x662e case 0x6 => 0x54b5 case 0x7 => 0x453c
    case 0x8 => 0xbdcb case 0x9 => 0xac42 case 0xa => 0x9ed9 case 0xb => 0x8f50 case 0xc => 0xfbef case 0xd => 0xea66 case 0xe => 0xd8fd case _ => 0xc974
  }

  function FcsRow4(c: bv8): bv16
  {
    match c
    case 0x0 => 0x4204 case 0x1 => 0x538d case 0x2 => 0x6116 case 0x3 => 0x709f case 0x4 => 0x0420 case 0x5 => 0x15a9 case 0x6 => 0x2732 case 0x7 => 0x36bb
    case 0x8 => 0xce4c case 0x9 => 0xdfc5 case 0xa => 0xed5e case 0xb => 0xfcd7 case 0xc => 0x8868 case 0xd => 0x99e1 case 0xe => 0xab7a case _ => 0xbaf3
  }

  function FcsRow5(c: bv8): bv16
  {
    match c
    case 0x0 => 0x5285 case 0x1 => 0x430c case 0x2 => 0x7197 case 0x3 => 0x601e case 0x4 => 0x14a1 case 0x5 => 0x0528 case 0x6 => 0x37b3 case 0x7 => 0x263a
    case 0x8 => 0xdecd case 0x9 => 0xcf44 case 0xa => 0xfddf case 0xb => 0xec56 case 0xc => 0x98e9 case 0xd => 0x8960 case 0xe => 0xbbfb case _ => 0xaa72
  }

  function FcsRow6(c: bv8): bv16
  {
    match c
    case 0x0 => 0x6306 case 0x1 => 0x728f case 0x2 => 0x4014 case 0x3 => 0x519d case 0x4 => 0x2522 case 0x5 => 0x34ab case 0x6 => 0x0630 case 0x7 => 0x17b9
    case 0x8 => 0xef4e case 0x9 => 0xfec7 case 0xa => 0xcc5c case 0xb => 0xddd5 case 0xc => 0xa96a case 0xd => 0xb8e3 case 0xe => 0x8a78 case _ => 0x9bf1
  }

  function FcsRow7(c: bv8): bv16
  {
    match c
    case 0x0 => 0x7387 case 0x1 => 0x620e case 0x2 => 0x5095 case 0x3 => 0x411c case 0x4 => 0x35a3 case 0x5 => 0x242a case 0x6 => 0x16b1 case 0x7 => 0x0738
    case 0x8 => 0xffcf case 0x9 => 0xee46 case 0xa => 0xdcdd case 0xb => 0xcd54 case 0xc => 0xb9eb case 0xd => 0xa862 case 0xe => 0x9af9 case _ => 0x8b70
  }

  function FcsRow8(c: bv8): bv16
  {
    match c
    case 0x0 => 0x8408 case 0x1 => 0x9581 case 0x2 => 0xa71a case 0x3 => 0xb693 case 0x4 => 0xc22c case 0x5 => 0xd3a5 case 0x6 => 0xe13e case 0x7 => 0xf0b7
    case 0x8 => 0x0840 case 0x9 => 0x19c9 case 0xa => 0x2b52 case 0xb => 0x3adb case 0xc => 0x4e64 case 0xd => 0x5fed case 0xe => 0x6d76 case _ => 0x7cff
  }

  function FcsRow9(c: bv8): bv16
  {
    match c
    case 0x0 => 0x9489 case 0x1 => 0x8500 case 0x2 => 0xb79b case 0x3 => 0xa612 case 0x4 => 0xd2ad case 0x5 => 0xc324 case 0x6 => 0xf1bf case 0x7 => 0xe036
    case 0x8 => 0x18c1 case 0x9 => 0x0948 case 0xa => 0x3bd3 case 0xb => 0x2a5a case 0xc => 0x5ee5 case 0xd => 0x4f6c case 0xe => 0x7df7 case _ => 0x6c7e
  }

  function FcsRowA(c: bv8): bv16
  {
    match c
    case 0x0 => 0xa50a case 0x1 => 0xb483 case 0x2 => 0x8618 case 0x3 => 0x9791 case 0x4 => 0xe32e case 0x5 => 0xf2a7 case 0x6 => 0xc03c case 0x7 => 0xd1b5
    case 0x8 => 0x2942 case 0x9 => 0x38cb case 0xa => 0x0a50 case 0xb => 0x1bd9 case 0xc => 0x6f66 case 0xd => 0x7eef case 0xe => 0x4c74 case _ => 0x5dfd
  }

  function FcsRowB(c: bv8): bv16
  {
    match c
    case 0x0 => 0xb58b case 0x1 => 0xa402 case 0x2 => 0x9699 case 0x3 => 0x8710 case 0x4 => 0xf3af case 0x5 => 0xe226 case 0x6 => 0xd0bd case 0x7 => 0xc134
    case 0x8 => 0x39c3 case 0x9 => 0x284a case 0xa => 0x1ad1 case 0xb => 0x0b58 case 0xc => 0x7fe7 case 0xd => 0x6e6e case 0xe => 0x5cf5 case _ => 0x4d7c
  }

  function FcsRowC(c: bv8): bv16
  {
    match c
    case 0x0 => 0xc60c case 0x1 => 0xd785 case 0x2 => 0xe51e case 0x3 => 0xf497 case 0x4 => 0x8028 case 0x5 => 0x91a1 case 0x6 => 0xa33a case 0x7 => 0xb2b3
    case 0x8 => 0x4a44 case 0x9 => 0x5bcd case 0xa => 0x6956 case 0xb => 0x78df case 0xc => 0x0c60 case 0xd => 0x1de9 case 0xe => 0x2f72 case _ => 0x3efb
  }

  function FcsRowD(c: bv8): bv16
  {
    match c
    case 0x0 => 0xd68d case 0x1 => 0xc704 case 0x2 => 0xf59f case 0x3 => 0xe416 case 0x4 => 0x90a9 case 0x5 => 0x8120 case 0x6 => 0xb3bb case 0x7 => 0xa232
    case 0x8 => 0x5ac5 case 0x9 => 0x4b4c case 0xa => 0x79d7 case 0xb => 0x685e case 0xc => 0x1ce1 case 0xd => 0x0d68 case 0xe => 0x3ff3 case _ => 0x2e7a
  }

  function FcsRowE(c: bv8): bv16
  {
    match c
    case 0x0 => 0xe70e case 0x1 => 0xf687 case 0x2 => 0xc41c case 0x3 => 0xd595 case 0x4 => 0xa12a case 0x5 => 0xb0a3 case 0x6 => 0x8238 case 0x7 => 0x93b1
    case 0x8 => 0x6b46 case 0x9 => 0x7acf case 0xa => 0x4854 case 0xb => 0x59dd case 0xc => 0x2d62 case 0xd => 0x3ceb case 0xe => 0x0e70 case _ => 0x1ff9
  }

  function FcsRowF(c: bv8): bv16
  {
    match c
    case 0x0 => 0xf78f case 0x1 => 0xe606 case 0x2 => 0xd49d case 0x3 => 0xc514 case 0x4 => 0xb1ab case 0x5 => 0xa022 case 0x6 => 0x92b9 case 0x7 => 0x8330
    case 0x8 => 0x7bc7 case 0x9 => 0x6a4e case 0xa => 0x58d5 case 0xb => 0x495c case 0xc => 0x3de3 case 0xd => 0x2c6a case 0xe => 0x1ef1 case _ => 0x0f78
  }

  /** One division step by the reversed polynomial 0x8408 of RFC 1662. */
  function PolyStep(v: bv16): bv16
  {
    if v & 1 == 1 then (v >> 1) ^ 0x8408 else v >> 1
  }

  /** The table entry generated from the polynomial: eight division steps. */
  function PolyEntry(i: bv8): bv16
  {
    PolyStep(PolyStep(PolyStep(PolyStep(PolyStep(PolyStep(PolyStep(PolyStep(i as bv16))))))))
  }

  /** Every literal entry of `fcstab` is the entry the polynomial generates,
      so the source table is the standard one entry for entry. */
  lemma TableFromPolynomial(i: bv8)
    ensures FcsTab(i) == PolyEntry(i)
  {
  }

  /** The table index `(fcs ^ c) & 0xff`: the low byte of `fcs` xor `c`. */
  function Index(fcs: bv16, c: bv8): bv8
  {
    (fcs & 0xff) as bv8 ^ c
  }

  /** One step of the fold: `fcs = (fcs >> 8) ^ fcstab[(fcs ^ c) & 0xff]`. */
  function Step(fcs: bv16, c: bv8): bv16
  {
    (fcs >> 8) ^ FcsTab(Index(fcs, c))
  }

  /** The FCS after folding every byte of `data`, first to last, into `fcs`. */
  function Fcs(fcs: bv16, data: seq<bv8>): bv16
    decreases |data|
  {
    if |data| == 0 then fcs else Step(Fcs(fcs, data[..|data| - 1]), data[|data| - 1])
  }

  /** pppfcs16: the `while (len--)` loop over the first `len` bytes of `cp`. */
  method PppFcs16(fcs: bv16, cp: seq<bv8>, len: int) returns (r: bv16)
    requires 0 <= len <= |cp|
    ensures r == Fcs(fcs, cp[..len])
  {
    r := fcs;
    var i := 0;
    while i < len
      invariant 0 <= i <= len
      invariant r == Fcs(fcs, cp[..i])
    {
      assert cp[..i + 1][..i] == cp[..i];
      r := (r >> 8) ^ FcsTab((r & 0xff) as bv8 ^ cp[i]);
      i := i + 1;
    }
  }

  /** The empty input leaves the FCS as it is. */
  lemma FcsEmpty(fcs: bv16)
    ensures Fcs(fcs, []) == fcs
  {
  }

  /** The FCS is a left fold: checksumming `a + b` is checksumming `b`
      starting from the FCS of `a`. */
  lemma {:induction false} FcsAppend(fcs: bv16, a: seq<bv8>, b: seq<bv8>)
    ensures Fcs(fcs, a + b) == Fcs(Fcs(fcs, a), b)
    decreases |b|
  {
    if |b| == 0 {
      assert a + b == a;
    } else {
      var b' := b[..|b| - 1];
      assert (a + b)[..|a + b| - 1] == a + b';
      assert (a + b)[|a + b| - 1] == b[|b| - 1];
      FcsAppend(fcs, a, b');
    }
  }

  /** The two bytes tryfcs16 appends to a frame: the complemented FCS, least
      significant byte first. */
  function Trailer(fcs: bv16): (t: seq<bv8>)
    ensures |t| == 2
    ensures (t[0] as bv16) | ((t[1] as bv16) << 8) == fcs ^ 0xffff
  {
    var c := fcs ^ 0xffff;
    [(c & 0xff) as bv8, (c >> 8) as bv8]
  }

  /** Whatever the running FCS, folding in its own trailer ends in the good
      residue: the first trailer byte always selects entry 0xff of the table
      and the second entry 0x87. */
  lemma TrailerResidue(f: bv16)
    ensures Fcs(f, Trailer(f)) == PppGoodFcs16
  {
    var t := Trailer(f);
    assert t[..1][..0] == [];
    assert t[..1] == [t[0]];
    assert t[..2 - 1] == t[..1];
    var f1 := Step(f, t[0]);
    assert Fcs(f, t[..1]) == f1;
    assert Index(f, t[0]) == 0xff;
    assert FcsTab(0xff) == 0x0f78;
    assert f1 == (f >> 8) ^ 0x0f78;
    assert Index(f1, t[1]) == 0x87;
    assert FcsTab(0x87) == 0xf0b7;
    assert f1 >> 8 == 0x000f;
  }

  /** The receiver's check of RFC 1662: a frame followed by the trailer of its
      own FCS checksums to PPPGOODFCS16. */
  lemma GoodResidue(data: seq<bv8>)
    ensures Fcs(PppInitFcs16, data + Trailer(Fcs(PppInitFcs16, data))) == PppGoodFcs16
  {
    var f := Fcs(PppInitFcs16, data);
    FcsAppend(PppInitFcs16, data, Trailer(f));
    TrailerResidue(f);
  }
}
