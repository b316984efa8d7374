/** Little-endian integers and fixed-width fields in byte sequences, and reading from the front of one. */
module Wire {
  import opened Words

  type bytes = seq<u8>

  function Pow256(n: nat): (r: nat)
    ensures r > 0
  {
    if n == 0 then 1 else 256 * Pow256(n - 1)
  }

  lemma WordSizes()
    ensures Pow256(1) == U8_MAX + 1 && Pow256(2) == U16_MAX + 1 && Pow256(4) == U32_MAX + 1
    ensures Pow256(8) == TWO_64 && Pow256(16) == U128_MAX + 1
  {
    assert Pow256(4) == 256 * (256 * (256 * (256 * Pow256(0))));
    assert Pow256(8) == 256 * (256 * (256 * (256 * Pow256(4))));
    assert Pow256(12) == 256 * (256 * (256 * (256 * Pow256(8))));
    assert Pow256(16) == 256 * (256 * (256 * (256 * Pow256(12))));
  }

  /** `to_le_bytes`. */
  function LeBytes(v: nat, n: nat): (r: bytes)
    ensures |r| == n
  {
    if n == 0 then [] else [v % 256] + LeBytes(v / 256, n - 1)
  }

  /** `from_le_bytes`. */
  function LeValue(b: bytes): (v: nat)
    ensures v < Pow256(|b|)
  {
    if b == [] then 0 else b[0] + 256 * LeValue(b[1..])
  }

  lemma {:induction false} LeRoundTrip(v: nat, n: nat)
    requires v < Pow256(n)
    ensures LeValue(LeBytes(v, n)) == v
    decreases n
  {
    if n > 0 {
      LeRoundTrip(v / 256, n - 1);
      assert LeBytes(v, n)[1..] == LeBytes(v / 256, n - 1);
    }
  }

  // ---- Fixed buffers

  /** An integer and its width in bytes. */
  datatype Field = Field(value: nat, width: nat)

  ghost predicate Fits(fs: seq<Field>) {
    forall i :: 0 <= i < |fs| ==> fs[i].value < Pow256(fs[i].width)
  }

  function Widths(fs: seq<Field>): (r: seq<nat>)
    ensures |r| == |fs| && forall i :: 0 <= i < |r| ==> r[i] == fs[i].width
  {
    seq(|fs|, i requires 0 <= i < |fs| => fs[i].width)
  }

  function Values(fs: seq<Field>): (r: seq<nat>)
    ensures |r| == |fs| && forall i :: 0 <= i < |r| ==> r[i] == fs[i].value
  {
    seq(|fs|, i requires 0 <= i < |fs| => fs[i].value)
  }

  function Size(widths: seq<nat>): nat {
    if widths == [] then 0 else widths[0] + Size(widths[1..])
  }

  function EncodeFields(fs: seq<Field>): (r: bytes)
    ensures |r| == Size(Widths(fs))
  {
    if fs == [] then []
    else
      assert Widths(fs)[1..] == Widths(fs[1..]);
      LeBytes(fs[0].value, fs[0].width) + EncodeFields(fs[1..])
  }

  /** The integers at consecutive offsets of a fixed buffer. */
  function DecodeFields(widths: seq<nat>, b: bytes): (r: seq<nat>)
    requires |b| == Size(widths)
    ensures |r| == |widths| && forall i :: 0 <= i < |r| ==> r[i] < Pow256(widths[i])
  {
    if widths == [] then []
    else [LeValue(b[..widths[0]])] + DecodeFields(widths[1..], b[widths[0]..])
  }

  lemma {:induction false} FieldsRoundTrip(fs: seq<Field>)
    requires Fits(fs)
    ensures DecodeFields(Widths(fs), EncodeFields(fs)) == Values(fs)
    decreases |fs|
  {
    if fs != [] {
      var b := EncodeFields(fs);
      assert Widths(fs)[1..] == Widths(fs[1..]);
      assert b[..fs[0].width] == LeBytes(fs[0].value, fs[0].width) && b[fs[0].width..] == EncodeFields(fs[1..]);
      LeRoundTrip(fs[0].value, fs[0].width);
      FieldsRoundTrip(fs[1..]);
      assert Values(fs) == [fs[0].value] + Values(fs[1..]);
    }
  }

  // ---- Reading from the front

  datatype DecodeError =
    | PrematureEof
    | InvalidMagic
    | UnsupportedVersion(version: u16)
    | InvalidRecordTag(recordTag: u8)
    | InvalidUtf8
    | InvalidOutcome(outcomeTag: u8)
    | InvalidValueKnowledgeTag(knowledgeTag: u8)
    | InvalidBooleanTag(booleanTag: u8)

  datatype Read<+T> = Got(value: T, rest: bytes) | Bad(error: DecodeError)

  /** `read_exact`. */
  function Take(input: bytes, n: nat): (r: Read<bytes>)
    ensures r.Got? ==> |r.rest| <= |input|
  {
    if |input| < n then Bad(PrematureEof) else Got(input[..n], input[n..])
  }

  /** Cutting the input of a successful read after `n` bytes: what was read is still there, or the read ends in a
      premature end of input, never in another error. */
  ghost predicate Cuts<T>(input: bytes, n: nat, whole: Read<T>, cut: Read<T>)
    requires n <= |input|
  {
    whole.Got? ==>
      && |whole.rest| <= |input|
      && var used := |input| - |whole.rest|;
         cut == if n < used then Bad(PrematureEof) else Got(whole.value, whole.rest[..n - used])
  }

  lemma TakeCuts(input: bytes, k: nat, n: nat)
    requires n <= |input|
    ensures Cuts(input, n, Take(input, k), Take(input[..n], k))
  {
    if k <= n {
      assert input[..n][k..] == input[k..][..n - k] && input[..n][..k] == input[..k];
    }
  }

  lemma TakeFront(a: bytes, rest: bytes)
    ensures Take(a + rest, |a|) == Got(a, rest)
  {
    assert (a + rest)[..|a|] == a && (a + rest)[|a|..] == rest;
  }

  // ---- Numbers at an offset

  /** The number in `width` bytes at an offset. */
  function ValueAt(buf: bytes, off: nat, width: nat): (v: nat)
    requires off + width <= |buf|
    ensures v < Pow256(width)
  {
    LeValue(buf[off..off + width])
  }

  function Offset(widths: seq<nat>, k: nat): nat
    requires k <= |widths|
  {
    if k == 0 then 0 else Offset(widths, k - 1) + widths[k - 1]
  }

  lemma {:induction false} OffsetFront(widths: seq<nat>, k: nat)
    requires 0 < k <= |widths|
    ensures Offset(widths, k) == widths[0] + Offset(widths[1..], k - 1)
    decreases k
  {
    if k > 1 {
      OffsetFront(widths, k - 1);
    }
  }

  lemma ValueBehind(b: bytes, skip: nat, off: nat, width: nat)
    requires skip + off + width <= |b|
    ensures ValueAt(b[skip..], off, width) == ValueAt(b, skip + off, width)
  {
    assert b[skip..][off..off + width] == b[skip + off..skip + off + width];
  }

  lemma {:induction false} FieldAt(widths: seq<nat>, b: bytes, k: nat)
    requires |b| == Size(widths) && k < |widths|
    ensures Offset(widths, k) + widths[k] <= |b|
    ensures DecodeFields(widths, b)[k] == ValueAt(b, Offset(widths, k), widths[k])
    decreases k
  {
    if k == 0 {
      assert b[0..widths[0]] == b[..widths[0]];
    } else {
      hide ValueAt, Offset;
      FieldAt(widths[1..], b[widths[0]..], k - 1);
      OffsetFront(widths, k);
      ValueBehind(b, widths[0], Offset(widths[1..], k - 1), widths[k]);
    }
  }

  lemma {:induction false} SizeIsOffset(widths: seq<nat>)
    ensures Size(widths) == Offset(widths, |widths|)
    decreases |widths|
  {
    if widths != [] {
      SizeIsOffset(widths[1..]);
      OffsetFront(widths, |widths|);
    }
  }

  /** Four bytes, lowest first. */
  function FourBytes(a: int, b: int, c: int, d: int): int {
    a + 0x100 * b + 0x1_0000 * c + 0x100_0000 * d
  }

  lemma FourBytesValue(b: bytes, off: nat)
    requires off + 4 <= |b|
    ensures ValueAt(b, off, 4) == FourBytes(b[off], b[off + 1], b[off + 2], b[off + 3])
  {
    var s := b[off..off + 4];
    assert s[1..] == [b[off + 1], b[off + 2], b[off + 3]];
    assert s[1..][1..] == [b[off + 2], b[off + 3]];
    assert s[1..][1..][1..] == [b[off + 3]];
    assert s[1..][1..][1..][1..] == [];
    assert LeValue(s[1..][1..][1..]) == b[off + 3];
    assert LeValue(s[1..][1..]) == b[off + 2] + 256 * LeValue(s[1..][1..][1..]);
    assert LeValue(s[1..]) == b[off + 1] + 256 * LeValue(s[1..][1..]);
  }

  lemma {:induction false} LeConcat(a: bytes, b: bytes)
    ensures LeValue(a + b) == LeValue(a) + Pow256(|a|) * LeValue(b)
    decreases |a|
  {
    if a == [] {
      assert a + b == b;
    } else {
      assert (a + b)[1..] == a[1..] + b;
      LeConcat(a[1..], b);
      var low, p, v := LeValue(a[1..]), Pow256(|a| - 1), LeValue(b);
      assert LeValue(a + b) == a[0] + 256 * LeValue(a[1..] + b) && LeValue(a) == a[0] + 256 * low && Pow256(|a|) == 256 * p;
      hide LeValue, Pow256;
      Shifted(low, p, v);
    }
  }

  lemma Shifted(low: nat, p: nat, v: nat)
    ensures 256 * (low + p * v) == 256 * low + 256 * p * v
  {
  }

  /** One byte is itself, two bytes are lowest first, and eight bytes are two groups of four, the lower one first. */
  lemma BytesValue(b: bytes, off: nat)
    ensures off + 1 <= |b| ==> ValueAt(b, off, 1) == b[off]
    ensures off + 2 <= |b| ==> ValueAt(b, off, 2) == b[off] as int + 0x100 * (b[off + 1] as int)
    ensures off + 8 <= |b| ==> ValueAt(b, off, 8) == ValueAt(b, off, 4) + 0x1_0000_0000 * ValueAt(b, off + 4, 4)
  {
    if off + 1 <= |b| {
      assert b[off..off + 1] == [b[off]];
      OneByte(b[off]);
    }
    if off + 2 <= |b| {
      assert b[off..off + 2] == [b[off]] + [b[off + 1]];
      LeConcat([b[off]], [b[off + 1]]);
      OneByte(b[off]);
      OneByte(b[off + 1]);
      WordSizes();
    }
    if off + 8 <= |b| {
      assert b[off..off + 8] == b[off..off + 4] + b[off + 4..off + 8];
      LeConcat(b[off..off + 4], b[off + 4..off + 8]);
      WordSizes();
    }
  }

  lemma OneByte(x: u8)
    ensures LeValue([x]) == x
  {
    assert [x][1..] == [];
  }

  /** Where the field `k` of a buffer ends up among other bytes. */
  lemma FieldPlaced(pre: bytes, fs: seq<Field>, post: bytes, k: nat)
    requires Fits(fs) && k < |fs|
    ensures var off := |pre| + Offset(Widths(fs), k);
      off + fs[k].width <= |pre + (EncodeFields(fs) + post)| && ValueAt(pre + (EncodeFields(fs) + post), off, fs[k].width) == fs[k].value
  {
    hide EncodeFields, DecodeFields, Offset, ValueAt, Size, Fits;
    FieldsRoundTrip(fs);
    FieldAt(Widths(fs), EncodeFields(fs), k);
    ValueWithin(pre, EncodeFields(fs), post, Offset(Widths(fs), k), fs[k].width);
  }

  lemma ValueWithin(pre: bytes, mid: bytes, post: bytes, off: nat, width: nat)
    requires off + width <= |mid|
    ensures ValueAt(pre + (mid + post), |pre| + off, width) == ValueAt(mid, off, width)
  {
    assert (pre + (mid + post))[|pre| + off..|pre| + off + width] == mid[off..off + width];
  }
}
