/** CRC-32C as polynomial division over the two-element field (section 12.1 of RFC 3720): the checksum is the complement of a
    remainder by the Castagnoli polynomial. Polynomials are coefficient lists, highest power first. */
module Polynomial {
  import opened Words
  import opened Wire
  import opened Register
  import opened Crc32c

  type poly = seq<bool>

  /** The powers in the generator. */
  predicate InGenerator(power: nat) {
    power in {32, 28, 27, 26, 25, 23, 22, 20, 19, 18, 14, 13, 11, 10, 9, 8, 6, 0}
  }

  function Generator(): (g: poly)
    ensures |g| == 33
  {
    seq(33, i requires 0 <= i < 33 => InGenerator(32 - i))
  }

  function Add(a: poly, b: poly): (r: poly)
    requires |a| == |b|
    ensures |r| == |a| && forall i :: 0 <= i < |r| ==> r[i] == (a[i] != b[i])
  {
    seq(|a|, i requires 0 <= i < |a| => a[i] != b[i])
  }

  function Zeros(n: nat): (r: poly)
    ensures |r| == n && forall i :: 0 <= i < n ==> !r[i]
  {
    seq(n, i => false)
  }

  /** The generator times a polynomial: the generator added at every power of the factor. */
  function TimesGenerator(q: poly): (r: poly)
    ensures |r| == |q| + 32
    decreases |q|
  {
    if q == [] then Zeros(32)
    else
      var rest := [false] + TimesGenerator(q[1..]);
      if q[0] then Add(Generator() + Zeros(|q| - 1), rest) else rest
  }

  /** Subtract the generator wherever the leading coefficient is set, until less than its degree is left. */
  function Remainder(p: poly): (r: poly)
    requires |p| >= 32
    ensures |r| == 32
    decreases |p|
  {
    if |p| == 32 then p
    else if p[0] then Remainder(Add(p, Generator() + Zeros(|p| - 33))[1..])
    else Remainder(p[1..])
  }

  /** This is division: a polynomial is a multiple of the generator plus its remainder. */
  lemma {:induction false} Division(p: poly) returns (q: poly)
    requires |p| >= 32
    ensures |q| == |p| - 32 && p == Add(TimesGenerator(q), Zeros(|q|) + Remainder(p))
    decreases |p|
  {
    if |p| == 32 {
      q := [];
      assert p == Add(Zeros(32), [] + p);
    } else {
      var shifted := Generator() + Zeros(|p| - 33);
      var less := if p[0] then Add(p, shifted)[1..] else p[1..];
      var rest := Division(less);
      q := [p[0]] + rest;
      assert q[1..] == rest;
      DivisionStep(p, rest, less, shifted);
    }
  }

  lemma DivisionStep(p: poly, rest: poly, less: poly, shifted: poly)
    requires |p| >= 33 && |rest| == |p| - 33 && |shifted| == |p| && shifted[0]
    requires less == if p[0] then Add(p, shifted)[1..] else p[1..]
    requires less == Add(TimesGenerator(rest), Zeros(|rest|) + Remainder(less))
    ensures p == Add(if p[0] then Add(shifted, [false] + TimesGenerator(rest)) else [false] + TimesGenerator(rest),
                     Zeros(|rest| + 1) + Remainder(less))
  {
    hide TimesGenerator, Remainder;
    var t, r := TimesGenerator(rest), Remainder(less);
    var sum := Add(if p[0] then Add(shifted, [false] + t) else [false] + t, Zeros(|rest| + 1) + r);
    forall i | 0 <= i < |p|
      ensures p[i] == sum[i]
    {
      if i > 0 {
        assert less[i - 1] == (t[i - 1] != (Zeros(|rest|) + r)[i - 1]);
        assert (Zeros(|rest| + 1) + r)[i] == (Zeros(|rest|) + r)[i - 1];
      }
    }
  }

  // ---- The register as a polynomial

  /** The `n` low bits of a register, lowest first: in the reflected register the lowest bit is the highest power. */
  function Coefficients(w: word, n: nat): (r: poly)
    ensures |r| == n
    decreases n
  {
    if n == 0 then [] else [Low(w)] + Coefficients(Half(w), n - 1)
  }

  lemma {:induction false} CoefficientsXor(a: word, b: word, n: nat)
    ensures Coefficients(Xor(a, b), n) == Add(Coefficients(a, n), Coefficients(b, n))
    decreases n
  {
    hide Xor, Low, Half;
    if n > 0 {
      HalfXor(a, b);
      LowXor(a, b);
      CoefficientsXor(Half(a), Half(b), n - 1);
    }
  }

  lemma {:induction false} CoefficientsSplit(w: word, m: nat, n: nat)
    ensures Coefficients(w, m + n) == Coefficients(w, m) + Coefficients(Halves(w, m), n)
    decreases m
  {
    hide Low, Half;
    if m > 0 {
      CoefficientsSplit(Half(w), m - 1, n);
    } else {
      assert Coefficients(w, 0) + Coefficients(w, n) == Coefficients(w, n);
    }
  }

  function Halves(w: word, n: nat): word
    decreases n
  {
    if n == 0 then w else Halves(Half(w), n - 1)
  }

  lemma EightHalves(w: word)
    ensures Halves(w, 8) == HighPart(w)
  {
  }

  lemma {:induction false} HalvesAdd(w: word, m: nat, n: nat)
    ensures Halves(w, m + n) == Halves(Halves(w, m), n)
    decreases m
  {
    hide Half;
    if m > 0 {
      HalvesAdd(Half(w), m - 1, n);
    }
  }

  lemma FourBytesOut(w: word)
    ensures HighPart(HighPart(HighPart(HighPart(w)))) == FromInt(0) && !Low(FromInt(0))
  {
  }

  lemma AllShiftedOut(w: word)
    ensures Halves(w, 32) == FromInt(0)
  {
    hide Half, HighPart, FromInt, Halves;
    HalvesAdd(w, 8, 24);
    EightHalves(w);
    HalvesAdd(HighPart(w), 8, 16);
    EightHalves(HighPart(w));
    HalvesAdd(HighPart(HighPart(w)), 8, 8);
    EightHalves(HighPart(HighPart(w)));
    EightHalves(HighPart(HighPart(HighPart(w))));
    FourBytesOut(w);
  }

  /** Halving shifts a zero in at the lowest power. */
  lemma CoefficientsHalf(w: word)
    ensures Coefficients(w, 32)[0] == Low(w)
    ensures Coefficients(Half(w), 32) == Coefficients(w, 32)[1..] + [false]
  {
    hide Half, Low, FromInt, Halves;
    CoefficientsSplit(w, 32, 1);
    AllShiftedOut(w);
    FourBytesOut(w);
    OneCoefficient(FromInt(0));
    assert Coefficients(w, 33)[1..] == Coefficients(w, 32)[1..] + [false];
  }

  lemma OneCoefficient(w: word)
    ensures Coefficients(w, 1) == [Low(w)]
  {
    hide Half, Low;
    assert Coefficients(Half(w), 0) == [];
  }

  // ---- The folded constant is the generator without its leading power

  lemma FourCoefficients(w: word)
    ensures Coefficients(w, 4) == [Low(w), Low(Half(w)), Low(Half(Half(w))), Low(Half(Half(Half(w))))]
    ensures Halves(w, 4) == Half(Half(Half(Half(w))))
  {
    hide Half, Low;
    assert Coefficients(w, 4) == [Low(w)] + ([Low(Half(w))] + Coefficients(Half(Half(w)), 2));
    assert Coefficients(Half(Half(w)), 2) == [Low(Half(Half(w)))] + Coefficients(Half(Half(Half(w))), 1);
  }

  lemma EightCoefficients(w: word)
    ensures var w4 := Half(Half(Half(Half(w))));
      Coefficients(w, 8) == [Low(w), Low(Half(w)), Low(Half(Half(w))), Low(Half(Half(Half(w)))),
                             Low(w4), Low(Half(w4)), Low(Half(Half(w4))), Low(Half(Half(Half(w4))))]
  {
    hide Half, Low, Coefficients, Halves;
    CoefficientsSplit(w, 4, 4);
    FourCoefficients(w);
    FourCoefficients(Halves(w, 4));
  }

  lemma FirstByte()
    ensures Coefficients(0x82F63B78, 8) == [false, false, false, true, true, true, true, false]
  {
    EightCoefficients(0x82F63B78);
  }

  lemma SecondByte()
    ensures Coefficients(0x82F63B, 8) == [true, true, false, true, true, true, false, false]
  {
    EightCoefficients(0x82F63B);
  }

  lemma ThirdByte()
    ensures Coefficients(0x82F6, 8) == [false, true, true, false, true, true, true, true]
  {
    EightCoefficients(0x82F6);
  }

  lemma FourthByte()
    ensures Coefficients(0x82, 8) == [false, true, false, false, false, false, false, true]
  {
    EightCoefficients(0x82);
  }

  lemma PolyBytes()
    ensures HighPart(POLY) == 0x82F63B && HighPart(0x82F63B) == 0x82F6 && HighPart(0x82F6) == 0x82
  {
  }

  lemma PolyIsGenerator()
    ensures Coefficients(POLY, 32) == Generator()[1..]
  {
    hide HighPart, Halves, Coefficients;
    PolyBytes();
    CoefficientsSplit(POLY, 8, 24);
    EightHalves(POLY);
    CoefficientsSplit(0x82F63B, 8, 16);
    EightHalves(0x82F63B);
    CoefficientsSplit(0x82F6, 8, 8);
    EightHalves(0x82F6);
    FirstByte();
    SecondByte();
    ThirdByte();
    FourthByte();
  }

  // ---- The register divides

  /** What is still to be divided: the register at the highest powers, the message bits added, and 32 zeros. */
  function Dividend(c: poly, bits: poly): (r: poly)
    requires |c| == 32
    ensures |r| == |bits| + 32
    ensures forall i :: 0 <= i < |r| ==> r[i] == ((i < 32 && c[i]) != (i < |bits| && bits[i]))
  {
    seq(|bits| + 32, i requires 0 <= i < |bits| + 32 => (i < 32 && c[i]) != (i < |bits| && bits[i]))
  }

  lemma BitInCoefficients(w: word, bit: bool)
    ensures var shifted := Coefficients(w, 32)[1..] + [false];
      Coefficients(BitIn(w, bit), 32) == if Coefficients(w, 32)[0] != bit then Add(shifted, Generator()[1..]) else shifted
  {
    hide Half, Low, Xor, Coefficients, Generator;
    CoefficientsHalf(w);
    if Low(w) != bit {
      CoefficientsXor(Half(w), POLY, 32);
      PolyIsGenerator();
    }
  }

  lemma DividendStep(c: poly, bits: poly)
    requires |c| == 32 && bits != []
    ensures var d, shifted := Dividend(c, bits), c[1..] + [false];
      && d[0] == (c[0] != bits[0])
      && d[1..] == Dividend(shifted, bits[1..])
      && Add(d, Generator() + Zeros(|d| - 33))[1..] == Dividend(Add(shifted, Generator()[1..]), bits[1..])
  {
    hide Generator;
    var d, shifted := Dividend(c, bits), c[1..] + [false];
    var g := Generator() + Zeros(|d| - 33);
    var folded := Add(shifted, Generator()[1..]);
    forall i | 0 <= i < |d| - 1
      ensures d[1..][i] == Dividend(shifted, bits[1..])[i]
      ensures Add(d, g)[1..][i] == Dividend(folded, bits[1..])[i]
    {
      assert d[1..][i] == d[i + 1] && Add(d, g)[1..][i] == (d[i + 1] != g[i + 1]);
      if i < 32 {
        assert g[i + 1] == Generator()[1..][i];
      }
    }
  }

  /** Feeding message bits into the register is polynomial division. */
  lemma {:induction false} SerialIsRemainder(w: word, bits: seq<bool>)
    ensures Coefficients(BitSerial(w, bits), 32) == Remainder(Dividend(Coefficients(w, 32), bits))
    decreases |bits|
  {
    hide BitIn, Coefficients, Dividend, Generator, Add;
    var c := Coefficients(w, 32);
    if bits == [] {
      assert Dividend(c, []) == c by { NoMoreBits(c); }
    } else {
      DividendStep(c, bits);
      BitInCoefficients(w, bits[0]);
      SerialIsRemainder(BitIn(w, bits[0]), bits[1..]);
    }
  }

  lemma NoMoreBits(c: poly)
    requires |c| == 32
    ensures Dividend(c, []) == c
  {
  }

  // ---- The checksum

  function Complement(a: poly): (r: poly)
    ensures |r| == |a| && forall i :: 0 <= i < |r| ==> r[i] == !a[i]
  {
    seq(|a|, i requires 0 <= i < |a| => !a[i])
  }

  lemma {:induction false} IntBits(w: word, n: nat)
    ensures Bits(ToInt(w), n) == Coefficients(w, n)
    decreases n
  {
    hide ToInt, Half, Low;
    if n > 0 {
      HalfInt(w);
      IntBits(Half(w), n - 1);
    }
  }

  lemma NotIsXor(w: word)
    ensures Not(w) == Xor(w, INITIAL)
  {
  }

  lemma InitialBytes()
    ensures HighPart(INITIAL) == 0xFF_FFFF && HighPart(0xFF_FFFF) == 0xFFFF && HighPart(0xFFFF) == 0xFF
  {
  }

  lemma FullByte(w: word)
    requires w & 0xFF == 0xFF
    ensures Coefficients(w, 8) == Complement(Zeros(8))
  {
    LowBitsSet(w);
    hide Half, Low;
    EightCoefficients(w);
  }

  lemma LowBitsSet(w: word)
    requires w & 0xFF == 0xFF
    ensures Low(w) && Low(Half(w)) && Low(Half(Half(w))) && Low(Half(Half(Half(w))))
    ensures var w4 := Half(Half(Half(Half(w)))); Low(w4) && Low(Half(w4)) && Low(Half(Half(w4))) && Low(Half(Half(Half(w4))))
  {
  }

  lemma InitialIsOnes()
    ensures Coefficients(INITIAL, 32) == Complement(Zeros(32))
  {
    hide HighPart, Halves, Coefficients;
    InitialBytes();
    CoefficientsSplit(INITIAL, 8, 24);
    EightHalves(INITIAL);
    CoefficientsSplit(0xFF_FFFF, 8, 16);
    EightHalves(0xFF_FFFF);
    CoefficientsSplit(0xFFFF, 8, 8);
    EightHalves(0xFFFF);
    FullByte(INITIAL);
    FullByte(0xFF_FFFF);
    FullByte(0xFFFF);
    FullByte(0xFF);
  }

  lemma FinalizeComplements(w: word)
    ensures Bits(Finalize(w), 32) == Complement(Coefficients(w, 32))
  {
    hide ToInt, Xor, Not, Coefficients;
    NotIsXor(w);
    IntBits(Not(w), 32);
    CoefficientsXor(w, INITIAL, 32);
    InitialIsOnes();
  }

  /** The checksum of a message: append 32 zeros to its bits, complement the first 32, divide by the generator and complement the
      remainder. */
  lemma CrcIsRemainder(data: bytes)
    ensures Bits(Crc(data), 32) ==
      Complement(Remainder(Add(MessageBits(data) + Zeros(32), Complement(Zeros(32)) + Zeros(8 * |data|))))
  {
    hide Finalize, BitSerial, Remainder, MessageBits, Coefficients, Dividend, Add, Complement, Zeros;
    var bits := MessageBits(data);
    FinalizeComplements(BitSerial(INITIAL, bits));
    SerialIsRemainder(INITIAL, bits);
    InitialIsOnes();
    OnesAdded(bits);
  }

  lemma OnesAdded(bits: poly)
    ensures Dividend(Complement(Zeros(32)), bits) == Add(bits + Zeros(32), Complement(Zeros(32)) + Zeros(|bits|))
  {
  }

  // ---- The check value

  /** One byte of a message is eight steps. */
  lemma ByteIn(crc: word, data: bytes, b: u8, next: word)
    requires BitSerial(INITIAL, MessageBits(data)) == crc && EightSteps(Xor(crc, FromInt(b))) == next
    ensures BitSerial(INITIAL, MessageBits(data + [b])) == next
  {
    hide EightSteps, FromInt, BitSerial, MessageBits, Bits, FromBits, Xor, Steps;
    assert (data + [b])[..|data|] == data && (data + [b])[..|data| + 1] == data + [b];
    OneMoreByte(INITIAL, data + [b], |data|);
    SerialIsSteps(crc, Bits(b, 8));
    ByteFromBits(b);
    EightUnfolded(Xor(crc, FromInt(b)));
  }

  // The register after each of the digits 1 to 9.

  lemma Digit1()
    ensures EightSteps(Xor(0xFFFFFFFF, FromInt(0x31))) == 0x6F0A661C
  {
  }

  lemma Digit2()
    ensures EightSteps(Xor(0x6F0A661C, FromInt(0x32))) == 0x8CAA3B9F
  {
  }

  lemma Digit3()
    ensures EightSteps(Xor(0x8CAA3B9F, FromInt(0x33))) == 0xEF84D04D
  {
  }

  lemma Digit4()
    ensures EightSteps(Xor(0xEF84D04D, FromInt(0x34))) == 0x9C50B11
  {
  }

  lemma Digit5()
    ensures EightSteps(Xor(0x9C50B11, FromInt(0x35))) == 0xE72EDCCA
  {
  }

  lemma Digit6()
    ensures EightSteps(Xor(0xE72EDCCA, FromInt(0x36))) == 0xBECA8E79
  {
  }

  lemma Digit7()
    ensures EightSteps(Xor(0xBECA8E79, FromInt(0x37))) == 0xEDBD6815
  {
  }

  lemma Digit8()
    ensures EightSteps(Xor(0xEDBD6815, FromInt(0x38))) == 0x9F787F65
  {
  }

  lemma Digit9()
    ensures EightSteps(Xor(0x9F787F65, FromInt(0x39))) == 0x1CF96D7C
  {
  }

  /** The checksum of the digits 1 to 9 is the check value of CRC-32C. */
  lemma CheckValue()
    ensures Crc([0x31, 0x32, 0x33, 0x34, 0x35, 0x36, 0x37, 0x38, 0x39]) == 0xE306_9283
  {
    hide EightSteps, FromInt, BitSerial, MessageBits, Xor, Finalize;
    NoBits(INITIAL);
    Digit1();
    Digit2();
    Digit3();
    Digit4();
    Digit5();
    Digit6();
    Digit7();
    Digit8();
    Digit9();
    ByteIn(0xFFFFFFFF, [], 0x31, 0x6F0A661C);
    assert [] + [0x31] == [0x31];
    ByteIn(0x6F0A661C, [0x31], 0x32, 0x8CAA3B9F);
    assert [0x31] + [0x32] == [0x31, 0x32];
    ByteIn(0x8CAA3B9F, [0x31, 0x32], 0x33, 0xEF84D04D);
    assert [0x31, 0x32] + [0x33] == [0x31, 0x32, 0x33];
    ByteIn(0xEF84D04D, [0x31, 0x32, 0x33], 0x34, 0x9C50B11);
    assert [0x31, 0x32, 0x33] + [0x34] == [0x31, 0x32, 0x33, 0x34];
    ByteIn(0x9C50B11, [0x31, 0x32, 0x33, 0x34], 0x35, 0xE72EDCCA);
    assert [0x31, 0x32, 0x33, 0x34] + [0x35] == [0x31, 0x32, 0x33, 0x34, 0x35];
    ByteIn(0xE72EDCCA, [0x31, 0x32, 0x33, 0x34, 0x35], 0x36, 0xBECA8E79);
    assert [0x31, 0x32, 0x33, 0x34, 0x35] + [0x36] == [0x31, 0x32, 0x33, 0x34, 0x35, 0x36];
    ByteIn(0xBECA8E79, [0x31, 0x32, 0x33, 0x34, 0x35, 0x36], 0x37, 0xEDBD6815);
    assert [0x31, 0x32, 0x33, 0x34, 0x35, 0x36] + [0x37] == [0x31, 0x32, 0x33, 0x34, 0x35, 0x36, 0x37];
    ByteIn(0xEDBD6815, [0x31, 0x32, 0x33, 0x34, 0x35, 0x36, 0x37], 0x38, 0x9F787F65);
    assert [0x31, 0x32, 0x33, 0x34, 0x35, 0x36, 0x37] + [0x38] == [0x31, 0x32, 0x33, 0x34, 0x35, 0x36, 0x37, 0x38];
    ByteIn(0x9F787F65, [0x31, 0x32, 0x33, 0x34, 0x35, 0x36, 0x37, 0x38], 0x39, 0x1CF96D7C);
    assert [0x31, 0x32, 0x33, 0x34, 0x35, 0x36, 0x37, 0x38] + [0x39] == [0x31, 0x32, 0x33, 0x34, 0x35, 0x36, 0x37, 0x38, 0x39];
    FinalComplement();
  }

  lemma FinalComplement()
    ensures Finalize(0x1CF96D7C) == 0xE306_9283
  {
  }
}
