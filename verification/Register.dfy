/** The 32-bit shift register of CRC-32C: single bit operations and their algebra. */
module Register {
  type word = bv32

  /** The reflected generator polynomial. */
  const POLY: word := 0x82F6_3B78

  // Bit operations by name, so that proofs can treat them abstractly.

  function Xor(x: word, y: word): word { x ^ y }

  function Half(x: word): word { x >> 1 }

  predicate Low(x: word) { x & 1 != 0 }

  function Double(x: word, low: bool): word {
    if low then (x << 1) | 1 else x << 1
  }

  predicate TopClear(x: word) { x & 0x8000_0000 == 0 }

  function FromInt(v: int): word
    requires 0 <= v < 0x1_0000_0000
  {
    v as word
  }

  function ToInt(x: word): (v: int)
    ensures 0 <= v < 0x1_0000_0000
  {
    x as int
  }

  function Fold(half: word, low: bool): word {
    if low then Xor(half, POLY) else half
  }

  /** One step without input. */
  function BitStep(x: word): word {
    Fold(Half(x), Low(x))
  }

  // ---- Exclusive or

  lemma XorAssociates(a: word, b: word, c: word)
    ensures Xor(Xor(a, b), c) == Xor(a, Xor(b, c))
  {
  }

  lemma XorCommutes(a: word, b: word)
    ensures Xor(a, b) == Xor(b, a)
  {
  }

  lemma XorCancels(a: word, p: word)
    ensures Xor(Xor(a, p), p) == a
  {
  }

  lemma XorShuffle(a: word, b: word, p: word)
    ensures Xor(Xor(a, p), Xor(b, p)) == Xor(a, b)
    ensures Xor(Xor(a, p), b) == Xor(Xor(a, b), p)
    ensures Xor(a, Xor(b, p)) == Xor(Xor(a, b), p)
  {
    hide Xor;
    XorAssociates(a, p, b);
    XorAssociates(a, b, p);
    XorCommutes(p, b);
    XorCommutes(b, p);
    XorAssociates(Xor(a, p), b, p);
    XorCancels(Xor(a, b), p);
  }

  lemma XorZero(a: word)
    ensures Xor(a, FromInt(0)) == a
  {
  }

  lemma XorInjective(a: word, x: word, y: word)
    requires Xor(a, x) == Xor(a, y)
    ensures x == y
  {
  }

  lemma HalfXor(x: word, y: word)
    ensures Half(Xor(x, y)) == Xor(Half(x), Half(y))
  {
  }

  lemma LowXor(x: word, y: word)
    ensures Low(Xor(x, y)) == (Low(x) != Low(y))
  {
  }

  lemma FoldXor(a: word, b: word, la: bool, lb: bool)
    ensures Fold(Xor(a, b), la != lb) == Xor(Fold(a, la), Fold(b, lb))
    ensures Fold(Xor(a, b), la) == Xor(Fold(a, la), b)
  {
    hide Xor;
    XorShuffle(a, b, POLY);
  }

  /** One step is linear over exclusive or. */
  lemma StepLinear(x: word, y: word)
    ensures BitStep(Xor(x, y)) == Xor(BitStep(x), BitStep(y))
  {
    hide Fold, Low, Half, Xor;
    HalfXor(x, y);
    LowXor(x, y);
    FoldXor(Half(x), Half(y), Low(x), Low(y));
  }

  // ---- Every step can be undone

  /** The top bit tells whether the polynomial was folded in. */
  function BitUnstep(y: word): word {
    if TopClear(y) then Double(y, false) else Double(Xor(y, POLY), true)
  }

  lemma UnstepStep(x: word)
    ensures BitUnstep(BitStep(x)) == x
  {
  }

  lemma DoubleHalf(y: word, low: bool)
    ensures Low(Double(y, low)) == low
    ensures TopClear(y) ==> Half(Double(y, low)) == y
  {
  }

  lemma PolyTop(y: word)
    ensures TopClear(Xor(y, POLY)) == !TopClear(y)
  {
  }

  lemma StepUnstep(y: word)
    ensures BitStep(BitUnstep(y)) == y
  {
    hide Xor, Half, Low, Double, TopClear;
    PolyTop(y);
    XorCancels(y, POLY);
    DoubleHalf(y, false);
    DoubleHalf(Xor(y, POLY), true);
  }

  // ---- Integers

  lemma WordRoundTrip(x: word)
    ensures FromInt(ToInt(x)) == x
  {
  }

  lemma DoubleEven(y: word)
    requires TopClear(y)
    ensures (y << 1) as int == 2 * (y as int)
  {
  }

  lemma DoubleOdd(y: word)
    requires TopClear(y)
    ensures ((y << 1) | 1) as int == 2 * (y as int) + 1
  {
  }

  lemma DoubleInt(y: word, low: bool)
    requires TopClear(y)
    ensures ToInt(Double(y, low)) == 2 * ToInt(y) + if low then 1 else 0
  {
    hide TopClear;
    if low {
      DoubleOdd(y);
    } else {
      DoubleEven(y);
    }
  }

  lemma HalfInt(w: word)
    ensures ToInt(w) == 2 * ToInt(Half(w)) + if Low(w) then 1 else 0
  {
    hide ToInt;
    HalfRestores(w);
    hide Half, Low, Double, TopClear;
    DoubleInt(Half(w), Low(w));
  }

  lemma HalfRestores(w: word)
    ensures Double(Half(w), Low(w)) == w && TopClear(Half(w))
  {
  }

  lemma TopClearInt(y: word)
    ensures TopClear(y) <==> ToInt(y) < 0x8000_0000
  {
  }

  // ---- Eight steps at once

  function EightSteps(x: word): word {
    BitStep(BitStep(BitStep(BitStep(BitStep(BitStep(BitStep(BitStep(x))))))))
  }

  lemma EightStepsLinear(x: word, y: word)
    ensures EightSteps(Xor(x, y)) == Xor(EightSteps(x), EightSteps(y))
  {
    hide BitStep, Xor;
    StepLinear(x, y);
    var x1, y1 := BitStep(x), BitStep(y);
    StepLinear(x1, y1);
    var x2, y2 := BitStep(x1), BitStep(y1);
    StepLinear(x2, y2);
    var x3, y3 := BitStep(x2), BitStep(y2);
    StepLinear(x3, y3);
    var x4, y4 := BitStep(x3), BitStep(y3);
    StepLinear(x4, y4);
    var x5, y5 := BitStep(x4), BitStep(y4);
    StepLinear(x5, y5);
    var x6, y6 := BitStep(x5), BitStep(y5);
    StepLinear(x6, y6);
    StepLinear(BitStep(x6), BitStep(y6));
  }

  /** With the low byte clear, nothing is folded in. */
  lemma HighBytes(x: word)
    requires x & 0xFF == 0
    ensures EightSteps(x) == x >> 8
  {
  }

  // ---- Byte steps

  function HighPart(x: word): word { x >> 8 }

  /** The table index: the low byte of the register. */
  function Index(x: word): (i: int)
    ensures 0 <= i < 256
  {
    LowByte(x);
    ToInt(x & 0xFF)
  }

  lemma LowByte(x: word)
    ensures ToInt(x & 0xFF) < 256
  {
  }

  lemma SplitByte(x: word)
    ensures Xor(x & 0xFF, x & 0xFFFF_FF00) == x && (x & 0xFFFF_FF00) & 0xFF == 0
    ensures HighPart(x & 0xFFFF_FF00) == HighPart(x)
  {
  }

  lemma IndexIsLowByte(x: word)
    ensures FromInt(Index(x)) == x & 0xFF
  {
    WordRoundTrip(x & 0xFF);
  }

  /** The low byte looked up, the rest shifted: the step of the table-driven form. */
  lemma ByteStep(x: word)
    ensures Xor(HighPart(x), EightSteps(FromInt(Index(x)))) == EightSteps(x)
  {
    hide EightSteps, Xor, FromInt, Index;
    SplitByte(x);
    HighBytes(x & 0xFFFF_FF00);
    EightStepsLinear(x & 0xFF, x & 0xFFFF_FF00);
    XorCommutes(EightSteps(x & 0xFF), HighPart(x));
    IndexIsLowByte(x);
  }

  lemma ByteShiftedOut(crc: word, b: int)
    requires 0 <= b < 256
    ensures HighPart(Xor(crc, FromInt(b))) == HighPart(crc)
  {
  }

  // ---- The start and the end of a checksum

  const INITIAL: word := 0xFFFF_FFFF

  function Not(x: word): word { !x }

  /** `Finalize`: the complement of the register. */
  function Finalize(crc: word): (v: int)
    ensures 0 <= v < 0x1_0000_0000
  {
    ToInt(Not(crc))
  }

  lemma NotTwice(a: word)
    ensures Not(Not(a)) == a
  {
  }

  lemma FinalizeInjective(a: word, b: word)
    requires Finalize(a) == Finalize(b)
    ensures a == b
  {
    hide ToInt, FromInt, Not;
    NotTwice(a);
    NotTwice(b);
    WordRoundTrip(Not(a));
    WordRoundTrip(Not(b));
  }
}
