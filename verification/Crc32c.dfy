/** CRC-32C by table, and the bit-serial division it stands for (section 12.1 of RFC 3720). */
module Crc32c {
  import opened Words
  import opened Wire
  import opened Register

  // ---- The bit-serial form

  /** One message bit enters the register. */
  function BitIn(crc: word, bit: bool): word {
    Fold(Half(crc), Low(crc) != bit)
  }

  function BitSerial(crc: word, bits: seq<bool>): word
    decreases |bits|
  {
    if bits == [] then crc else BitSerial(BitIn(crc, bits[0]), bits[1..])
  }

  /** The `n` low bits of `v`, lowest first. */
  function Bits(v: nat, n: nat): (r: seq<bool>)
    ensures |r| == n
    decreases n
  {
    if n == 0 then [] else [v % 2 == 1] + Bits(v / 2, n - 1)
  }

  function MessageBits(data: bytes): (r: seq<bool>)
    ensures |r| == 8 * |data|
  {
    if data == [] then [] else Bits(data[0], 8) + MessageBits(data[1..])
  }

  /** The checksum of a message: its bits, lowest of each byte first, divided out of an all-ones register. */
  function Crc(data: bytes): u32 {
    hide Finalize;
    Finalize(BitSerial(INITIAL, MessageBits(data)))
  }

  lemma {:induction false} SerialAppend(crc: word, a: seq<bool>, b: seq<bool>)
    ensures BitSerial(crc, a + b) == BitSerial(BitSerial(crc, a), b)
    decreases |a|
  {
    hide BitIn;
    if a == [] {
      assert a + b == b;
    } else {
      assert (a + b)[1..] == a[1..] + b;
      SerialAppend(BitIn(crc, a[0]), a[1..], b);
    }
  }

  lemma {:induction false} BitsOfConcat(a: bytes, b: bytes)
    ensures MessageBits(a + b) == MessageBits(a) + MessageBits(b)
    decreases |a|
  {
    if a == [] {
      assert a + b == b;
    } else {
      assert (a + b)[1..] == a[1..] + b;
      BitsOfConcat(a[1..], b);
    }
  }

  // ---- Bits combined with the register before it is stepped

  function Steps(x: word, n: nat): word
    decreases n
  {
    if n == 0 then x else Steps(BitStep(x), n - 1)
  }

  function FromBits(bits: seq<bool>): word {
    if bits == [] then FromInt(0) else Double(FromBits(bits[1..]), bits[0])
  }

  function BitValue(bits: seq<bool>): nat {
    if bits == [] then 0 else 2 * BitValue(bits[1..]) + (if bits[0] then 1 else 0)
  }

  function Pow2(n: nat): (r: nat)
    ensures r > 0
  {
    if n == 0 then 1 else 2 * Pow2(n - 1)
  }

  lemma {:induction false} Pow2Monotone(m: nat, n: nat)
    requires m <= n
    ensures Pow2(m) <= Pow2(n)
    decreases n
  {
    if m < n {
      Pow2Monotone(m, n - 1);
    }
  }

  lemma Pow2Of31()
    ensures Pow2(31) == 0x8000_0000
  {
    assert Pow2(8) == 256;
    assert Pow2(16) == 0x1_0000;
    assert Pow2(24) == 0x100_0000;
  }

  lemma ZeroInt()
    ensures ToInt(FromInt(0)) == 0
  {
  }

  lemma {:induction false} FromBitsInt(bits: seq<bool>)
    requires |bits| <= 32
    ensures ToInt(FromBits(bits)) == BitValue(bits) < Pow2(|bits|)
    ensures |bits| <= 31 ==> TopClear(FromBits(bits))
    decreases |bits|
  {
    hide ToInt, TopClear, Double, FromInt;
    if bits == [] {
      ZeroInt();
    } else {
      FromBitsInt(bits[1..]);
      DoubleInt(FromBits(bits[1..]), bits[0]);
    }
    if |bits| <= 31 {
      Pow2Monotone(|bits|, 31);
      Pow2Of31();
      TopClearInt(FromBits(bits));
    }
  }

  /** The first bit and the rest, read off the combined word. */
  lemma FromBitsSplit(bits: seq<bool>)
    requires 0 < |bits| <= 32
    ensures Low(FromBits(bits)) == bits[0] && Half(FromBits(bits)) == FromBits(bits[1..])
  {
    hide ToInt, TopClear, Double, FromInt, Low, Half;
    FromBitsInt(bits[1..]);
    DoubleHalf(FromBits(bits[1..]), bits[0]);
  }

  lemma {:induction false} FromBitsInjective(a: seq<bool>, b: seq<bool>)
    requires |a| == |b| <= 32 && FromBits(a) == FromBits(b)
    ensures a == b
    decreases |a|
  {
    hide FromBits;
    if a != [] {
      FromBitsSplit(a);
      FromBitsSplit(b);
      FromBitsInjective(a[1..], b[1..]);
      assert a == [a[0]] + a[1..] && b == [b[0]] + b[1..];
    }
  }

  lemma StepWithBits(c: word, bits: seq<bool>)
    requires 0 < |bits| <= 32
    ensures BitStep(Xor(c, FromBits(bits))) == Xor(BitIn(c, bits[0]), FromBits(bits[1..]))
  {
    hide Fold, Low, Half, Xor, FromBits;
    FromBitsSplit(bits);
    HalfXor(c, FromBits(bits));
    LowXor(c, FromBits(bits));
    FoldXor(Half(c), FromBits(bits[1..]), Low(c) != bits[0], false);
  }

  /** Up to 32 message bits can be combined with the register first and stepped through afterwards. */
  lemma {:induction false} SerialIsSteps(c: word, bits: seq<bool>)
    requires |bits| <= 32
    ensures BitSerial(c, bits) == Steps(Xor(c, FromBits(bits)), |bits|)
    decreases |bits|
  {
    hide BitIn, BitStep, Xor, FromInt;
    if bits == [] {
      XorZero(c);
    } else {
      StepWithBits(c, bits);
      SerialIsSteps(BitIn(c, bits[0]), bits[1..]);
    }
  }

  lemma {:induction false} BitsValue(v: nat, n: nat)
    requires v < Pow2(n)
    ensures BitValue(Bits(v, n)) == v
    decreases n
  {
    if n > 0 {
      BitsValue(v / 2, n - 1);
      assert Bits(v, n)[1..] == Bits(v / 2, n - 1);
    }
  }

  lemma ByteFromBits(b: u8)
    ensures FromBits(Bits(b, 8)) == FromInt(b)
  {
    hide ToInt, FromInt, FromBits;
    assert Pow2(8) == 256;
    BitsValue(b, 8);
    FromBitsInt(Bits(b, 8));
    WordRoundTrip(FromBits(Bits(b, 8)));
  }

  /** Every 32-bit number is the number of a word, so nothing is lost by converting it. */
  lemma IntRoundTrip(v: u32)
    ensures ToInt(FromInt(v)) == v
  {
    hide ToInt, FromInt, FromBits, Bits, BitValue;
    Pow2Of31();
    assert Pow2(32) == 2 * Pow2(31);
    BitsValue(v, 32);
    FromBitsInt(Bits(v, 32));
    WordRoundTrip(FromBits(Bits(v, 32)));
  }

  // ---- The table

  lemma EightUnfolded(x: word)
    ensures Steps(x, 8) == EightSteps(x)
  {
    hide BitStep;
  }

  /** The table: every byte after eight steps. */
  ghost predicate IsTable(table: seq<word>) {
    |table| == 256 && forall i :: 0 <= i < 256 ==> table[i] == EightSteps(FromInt(i))
  }

  /** `InitializeTable`. */
  method BuildTable() returns (table: array<word>)
    ensures fresh(table) && IsTable(table[..])
  {
    hide EightSteps, FromInt, BitStep;
    table := new word[256];
    for i := 0 to 256
      invariant forall k :: 0 <= k < i ==> table[k] == EightSteps(FromInt(k))
    {
      var crc := TableEntry(i);
      table[i] := crc;
    }
  }

  /** The inner loop of the table construction. */
  method TableEntry(i: u8) returns (crc: word)
    ensures crc == EightSteps(FromInt(i))
  {
    hide Steps, EightSteps, BitStep, FromInt, Half, Low, Xor;
    crc := FromInt(i);
    for j := 0 to 8
      invariant Steps(crc, 8 - j) == Steps(FromInt(i), 8)
    {
      StepsUnfold(crc, 8 - j);
      StepCases(crc);
      if Low(crc) {
        crc := Xor(Half(crc), POLY);
      } else {
        crc := Half(crc);
      }
    }
    StepsDone(crc);
    EightUnfolded(FromInt(i));
  }

  lemma StepsUnfold(x: word, n: nat)
    requires n > 0
    ensures Steps(x, n) == Steps(BitStep(x), n - 1)
  {
  }

  lemma StepsDone(x: word)
    ensures Steps(x, 0) == x
  {
  }

  lemma StepCases(x: word)
    ensures BitStep(x) == if Low(x) then Xor(Half(x), POLY) else Half(x)
  {
  }

  /** The index computation and the lookup of the table-driven step. */
  function TableStep(table: seq<word>, crc: word, b: u8): word
    requires |table| == 256
  {
    Xor(HighPart(crc), table[Index(Xor(crc, FromInt(b)))])
  }

  /** One table step is eight message bits. */
  lemma TableStepIsSerial(table: seq<word>, crc: word, b: u8)
    requires IsTable(table)
    ensures TableStep(table, crc, b) == BitSerial(crc, Bits(b, 8))
  {
    hide EightSteps, FromInt, ToInt, BitSerial, Bits, FromBits, Xor, HighPart, Index, Steps;
    var x := Xor(crc, FromInt(b));
    ByteStep(x);
    ByteShiftedOut(crc, b);
    SerialIsSteps(crc, Bits(b, 8));
    ByteFromBits(b);
    EightUnfolded(x);
  }

  /** `Update`: the register after more data. */
  method Update(table: array<word>, currentCrc: word, data: bytes) returns (crc: word)
    requires IsTable(table[..])
    ensures crc == BitSerial(currentCrc, MessageBits(data))
  {
    hide TableStep, BitSerial, MessageBits, Bits, IsTable;
    crc := currentCrc;
    NoBits(currentCrc);
    assert data[..0] == [];
    for i := 0 to |data|
      invariant crc == BitSerial(currentCrc, MessageBits(data[..i]))
    {
      TableLength(table[..]);
      TableStepIsSerial(table[..], crc, data[i]);
      OneMoreByte(currentCrc, data, i);
      crc := Lookup(table, crc, data[i]);
    }
    assert data[..|data|] == data;
  }

  lemma TableLength(table: seq<word>)
    requires IsTable(table)
    ensures |table| == 256
  {
  }

  lemma NoBits(crc: word)
    ensures BitSerial(crc, MessageBits([])) == crc
  {
  }

  lemma OneMoreByte(crc: word, data: bytes, i: nat)
    requires i < |data|
    ensures BitSerial(crc, MessageBits(data[..i + 1])) == BitSerial(BitSerial(crc, MessageBits(data[..i])), Bits(data[i], 8))
  {
    hide BitSerial;
    assert data[..i + 1] == data[..i] + [data[i]];
    BitsOfConcat(data[..i], [data[i]]);
    assert MessageBits([data[i]]) == Bits(data[i], 8) + MessageBits([]);
    assert MessageBits([data[i]]) == Bits(data[i], 8);
    SerialAppend(crc, MessageBits(data[..i]), Bits(data[i], 8));
  }

  method Lookup(table: array<word>, crc: word, b: u8) returns (next: word)
    requires table.Length == 256
    ensures next == TableStep(table[..], crc, b)
  {
    hide Xor, HighPart, Index, FromInt;
    var tableIdx := Index(Xor(crc, FromInt(b)));
    next := Xor(HighPart(crc), table[tableIdx]);
  }

  /** The table-driven checksum is the bit-serial one, for every input. */
  method ComputeCrc32c(table: array<word>, data: bytes) returns (crc: u32)
    requires IsTable(table[..])
    ensures crc == Crc(data)
  {
    hide Finalize, BitSerial, MessageBits;
    var register := Update(table, INITIAL, data);
    crc := Finalize(register);
  }

  /** Header and payload checksummed separately, as the viewer does. */
  method ComputeInParts(table: array<word>, header: bytes, payload: bytes) returns (crc: u32)
    requires IsTable(table[..])
    ensures crc == Crc(header + payload)
  {
    hide Finalize, BitSerial, MessageBits;
    var register := Update(table, INITIAL, header);
    register := Update(table, register, payload);
    BitsOfConcat(header, payload);
    SerialAppend(INITIAL, MessageBits(header), MessageBits(payload));
    crc := Finalize(register);
  }

  // ---- Detection

  lemma BitInInjective(a: word, b: word, bit: bool)
    requires BitIn(a, bit) == BitIn(b, bit)
    ensures a == b
  {
  }

  /** Feeding the same bits is a bijection of the register: different registers stay different. */
  lemma {:induction false} SerialInjective(a: word, b: word, bits: seq<bool>)
    requires BitSerial(a, bits) == BitSerial(b, bits)
    ensures a == b
    decreases |bits|
  {
    hide BitIn;
    if bits != [] {
      SerialInjective(BitIn(a, bits[0]), BitIn(b, bits[0]), bits[1..]);
      BitInInjective(a, b, bits[0]);
    }
  }

  /** And every register is reached. */
  function BitOut(y: word, bit: bool): word {
    if bit then Xor(BitUnstep(y), FromInt(1)) else BitUnstep(y)
  }

  lemma BitOutIn(y: word, bit: bool)
    ensures BitIn(BitOut(y, bit), bit) == y
  {
    hide Fold, Half, Low, BitUnstep, Xor, FromInt;
    StepUnstep(y);
    if bit {
      OneBit();
      HalfXor(BitUnstep(y), FromInt(1));
      LowXor(BitUnstep(y), FromInt(1));
      XorZero(Half(BitUnstep(y)));
    }
  }

  lemma OneBit()
    ensures Half(FromInt(1)) == FromInt(0) && Low(FromInt(1))
  {
  }

  lemma {:induction false} SerialSurjective(y: word, bits: seq<bool>) returns (x: word)
    ensures BitSerial(x, bits) == y
    decreases |bits|
  {
    hide BitIn, BitOut;
    if bits == [] {
      x := y;
    } else {
      var x1 := SerialSurjective(y, bits[1..]);
      x := BitOut(x1, bits[0]);
      BitOutIn(x1, bits[0]);
    }
  }

  lemma {:induction false} StepsInjective(a: word, b: word, n: nat)
    requires Steps(a, n) == Steps(b, n)
    ensures a == b
    decreases n
  {
    hide BitStep, BitUnstep;
    if n > 0 {
      StepsInjective(BitStep(a), BitStep(b), n - 1);
      UnstepStep(a);
      UnstepStep(b);
    }
  }

  /** Two bursts of at most 32 bits that leave the same register are the same burst. */
  lemma BurstInjective(c: word, a: seq<bool>, b: seq<bool>)
    requires |a| == |b| <= 32 && BitSerial(c, a) == BitSerial(c, b)
    ensures a == b
  {
    hide BitSerial, Steps, FromBits, Xor;
    SerialIsSteps(c, a);
    SerialIsSteps(c, b);
    StepsInjective(Xor(c, FromBits(a)), Xor(c, FromBits(b)), |a|);
    XorInjective(c, FromBits(a), FromBits(b));
    FromBitsInjective(a, b);
  }

  lemma {:induction false} MessageBitsInjective(a: bytes, b: bytes)
    requires |a| == |b| && MessageBits(a) == MessageBits(b)
    ensures a == b
    decreases |a|
  {
    hide Bits;
    if a != [] {
      assert MessageBits(a)[..8] == Bits(a[0], 8) && MessageBits(b)[..8] == Bits(b[0], 8);
      assert MessageBits(a)[8..] == MessageBits(a[1..]) && MessageBits(b)[8..] == MessageBits(b[1..]);
      assert Pow2(8) == 256;
      BitsValue(a[0], 8);
      BitsValue(b[0], 8);
      MessageBitsInjective(a[1..], b[1..]);
    }
  }

  /** Damage confined to four consecutive bytes always changes the checksum. */
  lemma WindowDetected(prefix: bytes, a: bytes, b: bytes, suffix: bytes)
    requires |a| == |b| <= 4 && a != b
    ensures Crc(prefix + (a + suffix)) != Crc(prefix + (b + suffix))
  {
    hide BitSerial, Finalize, MessageBits;
    if Crc(prefix + (a + suffix)) == Crc(prefix + (b + suffix)) {
      var c := BitSerial(INITIAL, MessageBits(prefix));
      RegisterAfter(prefix, a, suffix);
      RegisterAfter(prefix, b, suffix);
      FinalizeInjective(BitSerial(INITIAL, MessageBits(prefix + (a + suffix))), BitSerial(INITIAL, MessageBits(prefix + (b + suffix))));
      SerialInjective(BitSerial(c, MessageBits(a)), BitSerial(c, MessageBits(b)), MessageBits(suffix));
      BurstInjective(c, MessageBits(a), MessageBits(b));
      MessageBitsInjective(a, b);
    }
  }

  lemma RegisterAfter(prefix: bytes, a: bytes, suffix: bytes)
    ensures BitSerial(INITIAL, MessageBits(prefix + (a + suffix)))
         == BitSerial(BitSerial(BitSerial(INITIAL, MessageBits(prefix)), MessageBits(a)), MessageBits(suffix))
  {
    hide BitSerial, MessageBits;
    BitsOfConcat(prefix, a + suffix);
    BitsOfConcat(a, suffix);
    SerialAppend(INITIAL, MessageBits(prefix), MessageBits(a) + MessageBits(suffix));
    SerialAppend(BitSerial(INITIAL, MessageBits(prefix)), MessageBits(a), MessageBits(suffix));
  }
}
