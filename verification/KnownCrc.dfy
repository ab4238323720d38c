/** A known checksum (`src/crc32.rs`): the bits of a word as a number, on which the
    definition of CRC-32C can be followed byte by byte. */
module KnownCrc {
  import opened Crc

  function Odd(n: bv32): (odd: bool) {
    n & 1 != 0
  }

  function Half(n: bv32): (half: bv32) {
    n >> 1
  }

  function Both(a: bv32, b: bv32): (r: bv32) {
    a ^ b
  }

  function Half4(n: bv32): (r: bv32) {
    Half(Half(Half(Half(n))))
  }

  function Half8(n: bv32): (r: bv32) {
    Half4(Half4(n))
  }

  /** The bits of a number, the least first. */
  function Bits(n: bv32, count: nat): (bits: seq<bool>)
    ensures |bits| == count
  {
    if count == 0 then [] else [Odd(n)] + Bits(Half(n), count - 1)
  }

  function WordOf(n: bv32): (w: Word) {
    Bits(n, 32)
  }

  function ByteOf(n: bv32): (b: Byte) {
    Bits(n, 8)
  }

  const POLYNOMIAL_NUMBER: bv32 := 0x82F6_3B78

  function ShiftNumber(n: bv32): (r: bv32) {
    Both(Half(n), if Odd(n) then POLYNOMIAL_NUMBER else 0)
  }

  function ShiftBy(n: bv32, k: nat): (r: bv32) {
    if k == 0 then n else ShiftNumber(ShiftBy(n, k - 1))
  }

  // -------------------------------------------------------------- numbers by bits

  lemma BothHalves(a: bv32, b: bv32)
    ensures Half(Both(a, b)) == Both(Half(a), Half(b)) && Odd(Both(a, b)) == (Odd(a) != Odd(b))
  {
  }

  lemma ZeroHalves()
    ensures Half(0) == 0 && !Odd(0)
  {
  }

  lemma NothingLeft(n: bv32)
    ensures Half8(Half8(Half8(Half8(n)))) == 0
  {
  }

  // -------------------------------------------------------------------- words by bits

  lemma FirstBit(n: bv32, count: nat)
    requires count > 0
    ensures Bits(n, count) == [Odd(n)] + Bits(Half(n), count - 1)
  {
    hide Odd, Half;
  }

  lemma FourBits(n: bv32, count: nat)
    ensures Bits(n, count + 4) == [Odd(n), Odd(Half(n)), Odd(Half(Half(n))), Odd(Half(Half(Half(n))))] + Bits(Half4(n), count)
  {
    hide Odd, Half, Bits;
    FirstBit(n, count + 4);
    FirstBit(Half(n), count + 3);
    FirstBit(Half(Half(n)), count + 2);
    FirstBit(Half(Half(Half(n))), count + 1);
  }

  function Four(n: bv32): (bits: seq<bool>) {
    [Odd(n), Odd(Half(n)), Odd(Half(Half(n))), Odd(Half(Half(Half(n))))]
  }

  lemma EightBits(n: bv32, count: nat)
    ensures Bits(n, count + 8) == Four(n) + Four(Half4(n)) + Bits(Half8(n), count)
  {
    hide Odd, Half, Bits;
    FourBits(n, count + 4);
    FourBits(Half4(n), count);
  }

  lemma {:induction false} NoneSet(count: nat)
    ensures Bits(0, count) == Zeros(count)
  {
    ZeroHalves();
    hide Odd, Half;
    if count > 0 {
      NoneSet(count - 1);
      assert Zeros(count) == [false] + Zeros(count - 1);
    }
  }

  function BitAt(n: bv32, count: nat, i: nat): (bit: bool)
    requires i < count
  {
    Bits(n, count)[i]
  }

  lemma BitDown(n: bv32, count: nat, i: nat)
    requires i < count
    ensures BitAt(n, count, i) == if i == 0 then Odd(n) else BitAt(Half(n), count - 1, i - 1)
  {
    FirstBit(n, count);
    hide Odd, Half, Bits;
  }

  lemma {:induction false} BothAt(a: bv32, b: bv32, count: nat, i: nat)
    requires i < count
    ensures BitAt(Both(a, b), count, i) == (BitAt(a, count, i) != BitAt(b, count, i))
    decreases count
  {
    BothHalves(a, b);
    hide Odd, Half, Both, BitAt;
    BitDown(Both(a, b), count, i);
    BitDown(a, count, i);
    BitDown(b, count, i);
    if i > 0 { BothAt(Half(a), Half(b), count - 1, i - 1); }
  }

  lemma BothIs(a: bv32, b: bv32)
    ensures Xor(WordOf(a), WordOf(b)) == WordOf(Both(a, b))
  {
    hide Bits, Both;
    forall i | 0 <= i < 32 ensures Xor(WordOf(a), WordOf(b))[i] == WordOf(Both(a, b))[i] {
      BothAt(a, b, 32, i);
    }
  }

  predicate Small(n: bv32, count: nat) {
    if count == 0 then n == 0 else Small(Half(n), count - 1)
  }

  lemma {:induction false} SmallEnds(n: bv32, count: nat)
    requires Small(n, count)
    ensures Bits(n, count + 1) == Bits(n, count) + [false]
    decreases count
  {
    ZeroHalves();
    hide Odd, Half;
    if count > 0 {
      SmallEnds(Half(n), count - 1);
    } else {
      assert Bits(Half(n), 0) == [];
    }
  }

  lemma SmallFour(n: bv32, count: nat)
    requires Small(Half4(n), count)
    ensures Small(n, count + 4)
  {
    hide Odd, Half;
    assert Small(Half(Half(Half(n))), count + 1);
    assert Small(Half(Half(n)), count + 2);
    assert Small(Half(n), count + 3);
  }

  lemma SmallEight(n: bv32, count: nat)
    requires Small(Half8(n), count)
    ensures Small(n, count + 8)
  {
    hide Half, Half4, Small;
    SmallFour(Half4(n), count);
    SmallFour(n, count + 4);
  }

  lemma AllSmall(n: bv32)
    ensures Small(n, 32)
  {
    NothingLeft(n);
    hide Half, Half4, Half8;
    assert Small(0, 0);
    hide Small;
    SmallEight(Half8(Half8(Half8(n))), 0);
    SmallEight(Half8(Half8(n)), 8);
    SmallEight(Half8(n), 16);
    SmallEight(n, 24);
  }

  lemma DownIs(n: bv32)
    ensures Down(WordOf(n), 1) == WordOf(Half(n)) && WordOf(n)[0] == Odd(n)
  {
    AllSmall(n);
    hide Odd, Half;
    assert Small(Half(n), 31);
    SmallEnds(Half(n), 31);
    assert WordOf(n) == [Odd(n)] + Bits(Half(n), 31);
    hide Bits, Small;
    assert Zeros(1) == [false];
  }

  // -------------------------------------------------------------------- the polynomial

  lemma Byte78()
    ensures Four(POLYNOMIAL_NUMBER) == [false, false, false, true]
    ensures Four(Half4(POLYNOMIAL_NUMBER)) == [true, true, true, false]
    ensures Half8(POLYNOMIAL_NUMBER) == 0x82_F63B
  {
  }

  lemma Byte3B()
    ensures Four(0x82_F63B) == [true, true, false, true] && Four(Half4(0x82_F63B)) == [true, true, false, false]
    ensures Half8(0x82_F63B) == 0x82F6
  {
  }

  lemma ByteF6()
    ensures Four(0x82F6) == [false, true, true, false] && Four(Half4(0x82F6)) == [true, true, true, true]
    ensures Half8(0x82F6) == 0x82
  {
  }

  lemma Byte82()
    ensures Four(0x82) == [false, true, false, false] && Four(Half4(0x82)) == [false, false, false, true]
  {
  }

  /** The polynomial is 0x82F63B78: 0x1EDC6F41 with its bits the other way round. */
  lemma PolynomialIs()
    ensures POLYNOMIAL == WordOf(POLYNOMIAL_NUMBER)
  {
    hide Odd, Half, Half4, Half8, Four, POLYNOMIAL, Bits;
    PolynomialByNibble();
    Byte78();
    Byte3B();
    ByteF6();
    Byte82();
    EightBits(POLYNOMIAL_NUMBER, 24);
    EightBits(0x82_F63B, 16);
    EightBits(0x82F6, 8);
    EightBits(0x82, 0);
    Joined(Four(POLYNOMIAL_NUMBER) + Four(Half4(POLYNOMIAL_NUMBER)), Four(0x82_F63B) + Four(Half4(0x82_F63B)),
           Four(0x82F6) + Four(Half4(0x82F6)), Four(0x82) + Four(Half4(0x82)), Bits(Half8(0x82), 0));
  }

  lemma Joined(a: seq<bool>, b: seq<bool>, c: seq<bool>, d: seq<bool>, none: seq<bool>)
    requires |none| == 0
    ensures a + (b + (c + (d + none))) == a + b + c + d
  {
  }

  lemma PolynomialByNibble()
    ensures POLYNOMIAL == ([false, false, false, true] + [true, true, true, false])
                        + ([true, true, false, true] + [true, true, false, false])
                        + ([false, true, true, false] + [true, true, true, true])
                        + ([false, true, false, false] + [false, false, false, true])
  {
  }

  lemma ShiftIs(n: bv32)
    ensures Shift(WordOf(n)) == WordOf(ShiftNumber(n))
  {
    PolynomialIs();
    NoneSet(32);
    DownIs(n);
    BothIs(Half(n), POLYNOMIAL_NUMBER);
    BothIs(Half(n), 0);
    hide Bits, Xor, Down, Zeros, Both, Half, Odd;
  }

  lemma {:induction false} TimesIs(n: bv32, k: nat)
    ensures Times(WordOf(n), k) == WordOf(ShiftBy(n, k))
  {
    hide Shift, WordOf, ShiftNumber;
    if k > 0 {
      TimesIs(n, k - 1);
      ShiftIs(ShiftBy(n, k - 1));
    }
  }

  // --------------------------------------------------------------------- byte by byte

  lemma WideIs(n: bv32)
    requires Half8(n) == 0
    ensures Wide(ByteOf(n)) == WordOf(n)
  {
    hide Odd, Half, Half4, Half8, Four;
    EightBits(n, 24);
    EightBits(n, 0);
    assert Bits(Half8(n), 0) == [];
    hide Bits;
    NoneSet(24);
  }

  /** A byte more, on numbers. */
  lemma ByteIs(crc: bv32, n: bv32, rest: seq<Byte>)
    requires Half8(n) == 0
    ensures Bitwise(WordOf(crc), [ByteOf(n)] + rest) == Bitwise(WordOf(ShiftBy(Both(crc, n), 8)), rest)
  {
    WideIs(n);
    BothIs(crc, n);
    TimesIs(Both(crc, n), 8);
    assert ([ByteOf(n)] + rest)[1..] == rest;
    hide Xor, Times, Wide, WordOf, ByteOf, ShiftBy, Both, Half8;
  }

  lemma FirstThree()
    ensures ShiftBy(Both(0xFFFF_FFFF, 0x31), 8) == 0x6F0A_661C
    ensures ShiftBy(Both(0x6F0A_661C, 0x32), 8) == 0x8CAA_3B9F
    ensures ShiftBy(Both(0x8CAA_3B9F, 0x33), 8) == 0xEF84_D04D
  {
  }

  lemma SecondThree()
    ensures ShiftBy(Both(0xEF84_D04D, 0x34), 8) == 0x09C5_0B11
    ensures ShiftBy(Both(0x09C5_0B11, 0x35), 8) == 0xE72E_DCCA
    ensures ShiftBy(Both(0xE72E_DCCA, 0x36), 8) == 0xBECA_8E79
  {
  }

  lemma ThirdThree()
    ensures ShiftBy(Both(0xBECA_8E79, 0x37), 8) == 0xEDBD_6815
    ensures ShiftBy(Both(0xEDBD_6815, 0x38), 8) == 0x9F78_7F65
    ensures ShiftBy(Both(0x9F78_7F65, 0x39), 8) == 0x1CF9_6D7C
  {
  }

  lemma Digits(n: bv32)
    requires n < 256
    ensures Half8(n) == 0
  {
  }

  /** The bytes of the text 123456789, from the `n`th on. */
  function Nine(n: bv32): (bytes: seq<Byte>)
    requires 0x31 <= n <= 0x3A
    decreases 0x3A - n
  {
    if n == 0x3A then [] else [ByteOf(n)] + Nine(n + 1)
  }

  lemma NextDigit(crc: bv32, n: bv32, next: bv32)
    requires 0x31 <= n < 0x3A && ShiftBy(Both(crc, n), 8) == next
    ensures Bitwise(WordOf(crc), Nine(n)) == Bitwise(WordOf(next), Nine(n + 1))
  {
    Digits(n);
    ByteIs(crc, n, Nine(n + 1));
    hide Bitwise, WordOf, ByteOf, ShiftBy, Both, Half8;
  }

  lemma BytesFF()
    ensures Four(0xFFFF_FFFF) == Four(0xFF_FFFF) == Four(0xFFFF) == Four(0xFF) == [true, true, true, true]
    ensures Half8(0xFFFF_FFFF) == 0xFF_FFFF && Half8(0xFF_FFFF) == 0xFFFF && Half8(0xFFFF) == 0xFF
    ensures Four(Half4(0xFFFF_FFFF)) == Four(Half4(0xFF_FFFF)) == Four(Half4(0xFFFF)) == Four(Half4(0xFF))
         == [true, true, true, true]
  {
  }

  lemma OnesAre()
    ensures Ones() == WordOf(0xFFFF_FFFF)
  {
    hide Odd, Half, Half4, Half8, Four, Bits;
    BytesFF();
    EightBits(0xFFFF_FFFF, 24);
    EightBits(0xFF_FFFF, 16);
    EightBits(0xFFFF, 8);
    EightBits(0xFF, 0);
    var eight := [true, true, true, true] + [true, true, true, true];
    Joined(eight, eight, eight, eight, Bits(Half8(0xFF), 0));
    OnesByByte(eight);
  }

  lemma OnesByByte(eight: seq<bool>)
    requires |eight| == 8 && forall i :: 0 <= i < 8 ==> eight[i]
    ensures Ones() == eight + eight + eight + eight
  {
  }

  lemma NotIs(n: bv32)
    ensures Not(WordOf(n)) == WordOf(Both(n, 0xFFFF_FFFF))
  {
    OnesAre();
    BothIs(n, 0xFFFF_FFFF);
    assert forall i :: 0 <= i < 32 ==> Ones()[i];
    hide Bits, Both, Ones;
  }

  lemma LastOfAll()
    ensures Both(0x1CF9_6D7C, 0xFFFF_FFFF) == 0xE306_9283
  {
  }

  /** The checksum of the text 123456789 is 0xE3069283. */
  lemma CheckValue()
    ensures CrcOf(Nine(0x31)) == WordOf(0xE306_9283)
  {
    hide Bitwise, WordOf, ShiftBy, Both, Nine, Not;
    FirstThree();
    SecondThree();
    ThirdThree();
    NextDigit(0xFFFF_FFFF, 0x31, 0x6F0A_661C);
    NextDigit(0x6F0A_661C, 0x32, 0x8CAA_3B9F);
    NextDigit(0x8CAA_3B9F, 0x33, 0xEF84_D04D);
    NextDigit(0xEF84_D04D, 0x34, 0x09C5_0B11);
    NextDigit(0x09C5_0B11, 0x35, 0xE72E_DCCA);
    NextDigit(0xE72E_DCCA, 0x36, 0xBECA_8E79);
    NextDigit(0xBECA_8E79, 0x37, 0xEDBD_6815);
    NextDigit(0xEDBD_6815, 0x38, 0x9F78_7F65);
    NextDigit(0x9F78_7F65, 0x39, 0x1CF9_6D7C);
    OnesAre();
    NoDigits();
    LastOfAll();
    NotIs(0x1CF9_6D7C);
  }

  lemma NoDigits()
    ensures forall w: Word :: Bitwise(w, Nine(0x3A)) == w
  {
  }

}
