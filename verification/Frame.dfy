/** Frames: a 20-byte header, the payload, and a CRC-32C over both. */
module Frame {
  import opened Words
  import opened Wire
  import opened Register
  import opened Crc32c

  const MAGIC: bytes := [0x50, 0x54]
  const SCHEMA_VERSION: u16 := 1
  const HEADER_SIZE: nat := 20
  const CRC_SIZE: nat := 4
  const MAX_PAYLOAD_SIZE: nat := 4 * 1024 * 1024

  datatype ChannelTag = Command | LosslessDomain | ProgressPulse | CancellationHeartbeat

  datatype FrameHeader = FrameHeader(channelTag: ChannelTag, flags: u8, sequenceNumber: u64)

  datatype Frame = Frame(header: FrameHeader, payload: bytes)

  datatype FrameError =
    | PrematureFrameEof
    | BadMagic(magic: bytes)
    | BadVersion(version: u16)
    | BadChannelTag(channel: u8)
    | BadReserved(reserved: u16)
    | PayloadTooLarge(size: nat)
    | ChecksumMismatch(expected: u32, calculated: u32)

  datatype FrameResult = Decoded(frame: Frame) | Undecoded(error: FrameError)

  function TagByte(t: ChannelTag): u8 {
    match t
    case Command => 1
    case LosslessDomain => 2
    case ProgressPulse => 3
    case CancellationHeartbeat => 4
  }

  function TagFromByte(b: nat): Option<ChannelTag> {
    match b
    case 1 => Some(Command)
    case 2 => Some(LosslessDomain)
    case 3 => Some(ProgressPulse)
    case 4 => Some(CancellationHeartbeat)
    case _ => None
  }

  // ---- Encoding

  const HEADER_WIDTHS: seq<nat> := [2, 1, 1, 2, 8, 4]

  function HeaderFields(h: FrameHeader, payloadLen: u32): seq<Field> {
    [Field(SCHEMA_VERSION, 2), Field(TagByte(h.channelTag), 1), Field(h.flags, 1), Field(0, 2), Field(h.sequenceNumber, 8), Field(payloadLen, 4)]
  }

  function HeaderBytes(h: FrameHeader, payloadLen: u32): bytes {
    MAGIC + EncodeFields(HeaderFields(h, payloadLen))
  }

  lemma HeaderBytesSize(h: FrameHeader, payloadLen: u32)
    ensures |HeaderBytes(h, payloadLen)| == HEADER_SIZE
  {
    assert Widths(HeaderFields(h, payloadLen)) == HEADER_WIDTHS;
  }

  /** The bytes of a frame whose payload is within the limit. */
  function FrameBytes(f: Frame): bytes
    requires |f.payload| <= MAX_PAYLOAD_SIZE
  {
    var body := HeaderBytes(f.header, |f.payload|) + f.payload;
    body + LeBytes(Crc(body), 4)
  }

  datatype EncodeResult = Encoded(buffer: bytes) | TooLarge(size: nat)

  method EncodeFrame(table: array<word>, header: FrameHeader, payload: bytes) returns (r: EncodeResult)
    requires IsTable(table[..])
    ensures r == if |payload| > MAX_PAYLOAD_SIZE then TooLarge(|payload|) else Encoded(FrameBytes(Frame(header, payload)))
  {
    hide IsTable, Crc;
    if |payload| > MAX_PAYLOAD_SIZE {
      return TooLarge(|payload|);
    }
    var buffer := MAGIC;
    buffer := buffer + EncodeFields(HeaderFields(header, |payload|));
    buffer := buffer + payload;
    var crc := ComputeCrc32c(table, buffer);
    buffer := buffer + LeBytes(crc, 4);
    return Encoded(buffer);
  }

  // ---- Decoding an in-memory buffer

  function HeaderValues(b: bytes): (v: seq<nat>)
    requires |b| >= HEADER_SIZE
    ensures |v| == 6 && v[0] <= U16_MAX && v[1] <= U8_MAX && v[2] <= U8_MAX && v[3] <= U16_MAX && v[4] <= U64_MAX && v[5] <= U32_MAX
  {
    WordSizes();
    assert Size(HEADER_WIDTHS) == 18;
    DecodeFields(HEADER_WIDTHS, b[2..HEADER_SIZE])
  }

  /** The first thing wrong with a complete header. */
  function HeaderError(b: bytes): Option<FrameError>
    requires |b| >= HEADER_SIZE
  {
    var v := HeaderValues(b);
    if b[..2] != MAGIC then Some(BadMagic(b[..2]))
    else if v[0] != SCHEMA_VERSION then Some(BadVersion(v[0]))
    else if TagFromByte(v[1]).None? then Some(BadChannelTag(v[1]))
    else if v[3] != 0 then Some(BadReserved(v[3]))
    else if v[5] > MAX_PAYLOAD_SIZE then Some(PayloadTooLarge(v[5]))
    else None
  }

  function DecodeFrame(b: bytes): FrameResult {
    if |b| < HEADER_SIZE then Undecoded(PrematureFrameEof)
    else if HeaderError(b).Some? then Undecoded(HeaderError(b).value)
    else
      var v := HeaderValues(b);
      var end := HEADER_SIZE + v[5];
      if |b| < end + CRC_SIZE then Undecoded(PrematureFrameEof)
      else
        WordSizes();
        var expected := LeValue(b[end..end + CRC_SIZE]);
        var calculated := Crc(b[..end]);
        if expected != calculated then Undecoded(ChecksumMismatch(expected, calculated))
        else Decoded(Frame(FrameHeader(TagFromByte(v[1]).value, v[2], v[4]), b[HEADER_SIZE..end]))
  }

  /** How much of the input a refused frame takes: all of it at a premature end, the whole frame if only the checksum is
      wrong, and the header if that is broken. */
  function RefusedSize(b: bytes, error: FrameError): (n: nat)
    ensures n <= |b|
  {
    if error == PrematureFrameEof || |b| < HEADER_SIZE then |b|
    else if error.ChecksumMismatch? then Min(HEADER_SIZE + HeaderValues(b)[5] + CRC_SIZE, |b|)
    else HEADER_SIZE
  }

  /** The size a decoded frame occupies. */
  function FrameSize(f: Frame): nat {
    HEADER_SIZE + |f.payload| + CRC_SIZE
  }

  // ---- Round trip

  lemma HeaderRoundTrip(h: FrameHeader, payloadLen: u32, rest: bytes)
    requires payloadLen <= MAX_PAYLOAD_SIZE
    ensures var b := HeaderBytes(h, payloadLen) + rest;
      && |b| >= HEADER_SIZE && HeaderError(b).None?
      && var v := HeaderValues(b);
      && v[5] == payloadLen && v[2] == h.flags && v[4] == h.sequenceNumber && TagFromByte(v[1]) == Some(h.channelTag)
  {
    hide EncodeFields, DecodeFields;
    WordSizes();
    HeaderBytesSize(h, payloadLen);
    var fs := HeaderFields(h, payloadLen);
    assert Widths(fs) == HEADER_WIDTHS;
    FieldsRoundTrip(fs);
    var b := HeaderBytes(h, payloadLen) + rest;
    assert b[..2] == MAGIC && b[2..HEADER_SIZE] == EncodeFields(fs);
    var v := HeaderValues(b);
    assert v == Values(fs);
  }

  /** An encoded frame decodes to itself, whatever follows it in the buffer. */
  lemma FrameRoundTrip(f: Frame, rest: bytes)
    requires |f.payload| <= MAX_PAYLOAD_SIZE
    ensures DecodeFrame(FrameBytes(f) + rest) == Decoded(f) && |FrameBytes(f)| == FrameSize(f)
  {
    hide Crc, LeBytes, LeValue, HeaderBytes, HeaderValues, HeaderError;
    var n := |f.payload|;
    var header, crc := HeaderBytes(f.header, n), LeBytes(Crc(HeaderBytes(f.header, n) + f.payload), 4);
    var b := FrameBytes(f) + rest;
    HeaderBytesSize(f.header, n);
    assert b == header + (f.payload + crc + rest);
    HeaderRoundTrip(f.header, n, f.payload + crc + rest);
    WordSizes();
    LeRoundTrip(Crc(header + f.payload), 4);
    assert b[..HEADER_SIZE + n] == header + f.payload;
    assert b[HEADER_SIZE + n..HEADER_SIZE + n + CRC_SIZE] == crc;
    assert b[HEADER_SIZE..HEADER_SIZE + n] == f.payload;
  }

  // ---- The layout, byte by byte

  lemma HeaderPlaces(h: FrameHeader, payloadLen: u32)
    ensures var w := Widths(HeaderFields(h, payloadLen));
      Offset(w, 0) == 0 && Offset(w, 1) == 2 && Offset(w, 2) == 3 && Offset(w, 3) == 4 && Offset(w, 4) == 6 && Offset(w, 5) == 14
  {
    var w := Widths(HeaderFields(h, payloadLen));
    assert w == HEADER_WIDTHS;
    assert Offset(w, 1) == 2;
    assert Offset(w, 2) == 3;
    assert Offset(w, 3) == 4;
    assert Offset(w, 4) == 6;
  }

  /** The header: the letters PT, version 1, the channel from 1 to 4, the flags, two zero bytes, the sequence number and the
      length of the payload. */
  ghost predicate HeaderLaid(b: bytes, h: FrameHeader, payloadLen: nat) {
    && |b| >= 20 && b[0] == 0x50 && b[1] == 0x54 && ValueAt(b, 2, 2) == 1
    && (h.channelTag.Command? <==> ValueAt(b, 4, 1) == 1) && (h.channelTag.LosslessDomain? <==> ValueAt(b, 4, 1) == 2)
    && (h.channelTag.ProgressPulse? <==> ValueAt(b, 4, 1) == 3) && (h.channelTag.CancellationHeartbeat? <==> ValueAt(b, 4, 1) == 4)
    && ValueAt(b, 5, 1) == h.flags && ValueAt(b, 6, 2) == 0
    && ValueAt(b, 8, 8) == h.sequenceNumber && ValueAt(b, 16, 4) == payloadLen
  }

  lemma HeaderIsLaid(h: FrameHeader, payloadLen: u32, rest: bytes)
    ensures HeaderLaid(HeaderBytes(h, payloadLen) + rest, h, payloadLen)
  {
    hide HeaderBytes, ValueAt, Offset, Widths;
    HeaderPlaces(h, payloadLen);
    HeaderBytesSize(h, payloadLen);
    HeaderFieldPlaced(h, payloadLen, rest, 0);
    HeaderFieldPlaced(h, payloadLen, rest, 1);
    HeaderFieldPlaced(h, payloadLen, rest, 2);
    HeaderFieldPlaced(h, payloadLen, rest, 3);
    HeaderFieldPlaced(h, payloadLen, rest, 4);
    HeaderFieldPlaced(h, payloadLen, rest, 5);
  }

  lemma HeaderFieldPlaced(h: FrameHeader, payloadLen: u32, rest: bytes, k: nat)
    requires k < 6
    ensures var fs, b := HeaderFields(h, payloadLen), HeaderBytes(h, payloadLen) + rest;
      && |b| >= 2 && b[0] == 0x50 && b[1] == 0x54
      && 2 + Offset(Widths(fs), k) + fs[k].width <= |b| && ValueAt(b, 2 + Offset(Widths(fs), k), fs[k].width) == fs[k].value
  {
    var fs := HeaderFields(h, payloadLen);
    HeaderFieldsFit(h, payloadLen);
    hide HeaderFields, EncodeFields, ValueAt, Offset, Widths, Fits;
    FieldPlaced(MAGIC, fs, rest, k);
    assert HeaderBytes(h, payloadLen) + rest == MAGIC + (EncodeFields(fs) + rest);
  }

  lemma HeaderFieldsFit(h: FrameHeader, payloadLen: u32)
    ensures Fits(HeaderFields(h, payloadLen)) && |HeaderFields(h, payloadLen)| == 6
  {
    WordSizes();
  }

  /** A frame is its header, its payload from byte 20 on, and the checksum of both in the last four bytes. */
  lemma FrameLayout(f: Frame)
    requires |f.payload| <= MAX_PAYLOAD_SIZE
    ensures var b, n := FrameBytes(f), |f.payload|;
      |b| == n + 24 && HeaderLaid(b, f.header, n) && b[20..20 + n] == f.payload && ValueAt(b, 20 + n, 4) == Crc(b[..20 + n])
  {
    hide Crc, LeBytes, LeValue, HeaderBytes, HeaderLaid;
    var n := |f.payload|;
    var header := HeaderBytes(f.header, n);
    var crc := LeBytes(Crc(header + f.payload), 4);
    HeaderBytesSize(f.header, n);
    HeaderIsLaid(f.header, n, f.payload + crc);
    LeFour(Crc(header + f.payload));
    var b := FrameBytes(f);
    assert b == header + (f.payload + crc);
    assert b[..20 + n] == header + f.payload && b[20 + n..20 + n + 4] == crc;
  }

  lemma HeaderRead(b: bytes)
    requires |b| >= HEADER_SIZE
    ensures var v := HeaderValues(b);
      && v[0] == ValueAt(b, 2, 2) && v[1] == ValueAt(b, 4, 1) && v[2] == ValueAt(b, 5, 1) && v[3] == ValueAt(b, 6, 2)
      && v[4] == ValueAt(b, 8, 8) && v[5] == ValueAt(b, 16, 4)
  {
    var w, c := HEADER_WIDTHS, b[2..HEADER_SIZE];
    assert Offset(w, 1) == 2;
    assert Offset(w, 2) == 3;
    assert Offset(w, 3) == 4;
    assert Offset(w, 4) == 6;
    assert Offset(w, 5) == 14;
    assert Size(w) == 18;
    hide Offset, ValueAt, DecodeFields, Size;
    HeaderFieldRead(b, c, 0);
    HeaderFieldRead(b, c, 1);
    HeaderFieldRead(b, c, 2);
    HeaderFieldRead(b, c, 3);
    HeaderFieldRead(b, c, 4);
    HeaderFieldRead(b, c, 5);
  }

  lemma HeaderFieldRead(b: bytes, c: bytes, k: nat)
    requires |b| >= HEADER_SIZE && c == b[2..HEADER_SIZE] && k < |HEADER_WIDTHS| && |c| == Size(HEADER_WIDTHS)
    ensures 2 + Offset(HEADER_WIDTHS, k) + HEADER_WIDTHS[k] <= HEADER_SIZE
    ensures DecodeFields(HEADER_WIDTHS, c)[k] == ValueAt(b, 2 + Offset(HEADER_WIDTHS, k), HEADER_WIDTHS[k])
  {
    hide Offset, DecodeFields, Size, ValueAt;
    FieldAt(HEADER_WIDTHS, c, k);
    ValueWithin(b[..2], c, b[HEADER_SIZE..], Offset(HEADER_WIDTHS, k), HEADER_WIDTHS[k]);
    assert b == b[..2] + (c + b[HEADER_SIZE..]);
  }

  /** What a buffer decodes to, read off its bytes: the first thing wrong with it, in this order, or the frame. */
  lemma VerdictMeaning(b: bytes)
    ensures var r := DecodeFrame(b);
      if |b| < 20 then r == Undecoded(PrematureFrameEof)
      else
        var len := ValueAt(b, 16, 4);
        if b[..2] != [0x50, 0x54] then r == Undecoded(BadMagic(b[..2]))
        else if ValueAt(b, 2, 2) != 1 then r.Undecoded? && r.error.BadVersion? && r.error.version == ValueAt(b, 2, 2)
        else if ValueAt(b, 4, 1) == 0 || ValueAt(b, 4, 1) > 4 then r.Undecoded? && r.error.BadChannelTag? && r.error.channel == ValueAt(b, 4, 1)
        else if ValueAt(b, 6, 2) != 0 then r.Undecoded? && r.error.BadReserved? && r.error.reserved == ValueAt(b, 6, 2)
        else if len > 0x40_0000 then r == Undecoded(PayloadTooLarge(len))
        else if |b| < len + 24 then r == Undecoded(PrematureFrameEof)
        else if ValueAt(b, 20 + len, 4) != Crc(b[..20 + len]) then
          r.Undecoded? && r.error.ChecksumMismatch? && r.error.expected == ValueAt(b, 20 + len, 4) && r.error.calculated == Crc(b[..20 + len])
        else r.Decoded? && HeaderLaid(b, r.frame.header, len) && r.frame.payload == b[20..20 + len]
  {
    if |b| >= HEADER_SIZE {
      HeaderRead(b);
      hide HeaderValues, Crc, LeValue;
    }
  }

  // ---- Damage

  lemma LeFour(crc: u32)
    ensures LeValue(LeBytes(crc, 4)) == crc
  {
    WordSizes();
    LeRoundTrip(crc, 4);
  }

  /** A frame whose payload was altered within four consecutive bytes is always refused for its checksum. */
  lemma DamageDetected(f: Frame, before: bytes, intact: bytes, damaged: bytes, after: bytes)
    requires |f.payload| <= MAX_PAYLOAD_SIZE && f.payload == before + (intact + after)
    requires |intact| == |damaged| <= 4 && intact != damaged
    ensures var received := HeaderBytes(f.header, |f.payload|) + (before + (damaged + after)) + LeBytes(Crc(HeaderBytes(f.header, |f.payload|) + f.payload), 4);
      DecodeFrame(received) == Undecoded(ChecksumMismatch(Crc(HeaderBytes(f.header, |f.payload|) + f.payload),
                                                          Crc(HeaderBytes(f.header, |f.payload|) + (before + (damaged + after)))))
  {
    hide Crc, LeBytes, LeValue, HeaderBytes, HeaderValues, HeaderError;
    var n := |f.payload|;
    var header := HeaderBytes(f.header, n);
    var payload' := before + (damaged + after);
    var crc := LeBytes(Crc(header + f.payload), 4);
    var received := header + payload' + crc;
    HeaderBytesSize(f.header, n);
    assert received == header + (payload' + crc);
    HeaderRoundTrip(f.header, n, payload' + crc);
    LeFour(Crc(header + f.payload));
    assert received[..HEADER_SIZE + n] == header + payload';
    assert received[HEADER_SIZE + n..HEADER_SIZE + n + CRC_SIZE] == crc;
    WindowDetected(header + before, intact, damaged, after);
    assert header + f.payload == header + before + (intact + after);
    assert header + payload' == header + before + (damaged + after);
  }

  // ---- Arriving bytes

  /** Once a verdict other than "more bytes needed" is reached, further bytes do not change it. */
  lemma VerdictIsStable(b: bytes, more: bytes)
    requires DecodeFrame(b) != Undecoded(PrematureFrameEof)
    ensures DecodeFrame(b + more) == DecodeFrame(b)
  {
    hide Crc, LeValue, DecodeFields;
    var c := b + more;
    assert c[..2] == b[..2] && c[2..HEADER_SIZE] == b[2..HEADER_SIZE];
    var v := HeaderValues(b);
    if HeaderError(b).None? {
      var end := HEADER_SIZE + v[5];
      assert c[..end] == b[..end] && c[end..end + CRC_SIZE] == b[end..end + CRC_SIZE] && c[HEADER_SIZE..end] == b[HEADER_SIZE..end];
    }
  }

  datatype Readiness = Empty | Partial | Complete | Broken(error: FrameError)

  /** `peek_frame_readiness`, as a function of the bytes available in the pipe. */
  method PeekFrameReadiness(available: bytes) returns (r: Readiness)
    ensures r == Empty <==> available == []
    ensures r == Partial <==> available != [] && DecodeFrame(available) == Undecoded(PrematureFrameEof)
    ensures r == Complete <==> DecodeFrame(available).Decoded? || (DecodeFrame(available).Undecoded? && DecodeFrame(available).error.ChecksumMismatch?)
    ensures r.Broken? ==> DecodeFrame(available) == Undecoded(r.error)
  {
    hide DecodeFields, Crc, LeValue;
    if |available| == 0 {
      return Empty;
    }
    if |available| < HEADER_SIZE {
      return Partial;
    }
    var magic := available[..2];
    if magic != MAGIC {
      return Broken(BadMagic(magic));
    }
    var v := HeaderValues(available);
    if v[0] != SCHEMA_VERSION {
      return Broken(BadVersion(v[0]));
    }
    if TagFromByte(v[1]).None? {
      return Broken(BadChannelTag(v[1]));
    }
    if v[3] != 0 {
      return Broken(BadReserved(v[3]));
    }
    if v[5] > MAX_PAYLOAD_SIZE {
      return Broken(PayloadTooLarge(v[5]));
    }
    var total := HEADER_SIZE + v[5] + CRC_SIZE;
    if |available| < total {
      return Partial;
    }
    return Complete;
  }

  // ---- Reading from a stream

  datatype StreamResult = NoFrame | Received(frame: Frame) | Refused(error: FrameError)

  /** A byte stream consumed from the front. */
  class ByteStream {
    var input: bytes

    constructor (input: bytes)
      ensures this.input == input
    {
      this.input := input;
    }

    /** `read_exact`: all or nothing. */
    method ReadExact(n: nat) returns (b: Option<bytes>)
      modifies this
      ensures |old(input)| >= n ==> b == Some(old(input)[..n]) && input == old(input)[n..]
      ensures |old(input)| < n ==> b == None && input == []
    {
      if |input| < n {
        input := [];
        return None;
      }
      b := Some(input[..n]);
      input := input[n..];
    }

    /** `read_frame`: the end of input is clean only before the first byte. */
    method ReadFrame(table: array<word>) returns (r: StreamResult)
      requires IsTable(table[..])
      modifies this
      ensures old(input) == [] <==> r == NoFrame
      ensures r == NoFrame ==> input == []
      ensures r.Received? <==> DecodeFrame(old(input)).Decoded?
      ensures r.Received? ==> DecodeFrame(old(input)).frame == r.frame
      ensures r.Received? ==> |old(input)| >= FrameSize(r.frame) && input == old(input)[FrameSize(r.frame)..]
      ensures r.Refused? ==> DecodeFrame(old(input)) == Undecoded(r.error)
      ensures r.Refused? ==> input == old(input)[RefusedSize(old(input), r.error)..]
    {
      hide IsTable, Crc, LeValue, DecodeFields;
      ghost var whole := input;
      var first := ReadExact(1);
      if first.None? {
        return NoFrame;
      }
      var rest := ReadExact(HEADER_SIZE - 1);
      if rest.None? {
        return Refused(PrematureFrameEof);
      }
      var header := first.value + rest.value;
      assert header == whole[..HEADER_SIZE];
      SameHeader(header, whole);
      var magic := header[..2];
      if magic != MAGIC {
        return Refused(BadMagic(magic));
      }
      var v := HeaderValues(header);
      if v[0] != SCHEMA_VERSION {
        return Refused(BadVersion(v[0]));
      }
      if TagFromByte(v[1]).None? {
        return Refused(BadChannelTag(v[1]));
      }
      if v[3] != 0 {
        return Refused(BadReserved(v[3]));
      }
      if v[5] > MAX_PAYLOAD_SIZE {
        return Refused(PayloadTooLarge(v[5]));
      }
      var payload := ReadExact(v[5]);
      if payload.None? {
        return Refused(PrematureFrameEof);
      }
      var crcBuf := ReadExact(CRC_SIZE);
      if crcBuf.None? {
        return Refused(PrematureFrameEof);
      }
      WordSizes();
      var expected := LeValue(crcBuf.value);
      var calculated := ComputeInParts(table, header, payload.value);
      Sections(whole, v[5]);
      if expected != calculated {
        return Refused(ChecksumMismatch(expected, calculated));
      }
      return Received(Frame(FrameHeader(TagFromByte(v[1]).value, v[2], v[4]), payload.value));
    }
  }

  lemma SameHeader(header: bytes, whole: bytes)
    requires |whole| >= HEADER_SIZE && header == whole[..HEADER_SIZE]
    ensures HeaderValues(header) == HeaderValues(whole) && HeaderError(header) == HeaderError(whole) && header[..2] == whole[..2]
  {
    assert header[2..HEADER_SIZE] == whole[2..HEADER_SIZE] && header[..2] == whole[..2];
  }

  lemma Sections(whole: bytes, n: nat)
    requires |whole| >= HEADER_SIZE + n + CRC_SIZE
    ensures whole[..HEADER_SIZE] + whole[HEADER_SIZE..][..n] == whole[..HEADER_SIZE + n]
    ensures whole[HEADER_SIZE..][..n] == whole[HEADER_SIZE..HEADER_SIZE + n]
    ensures whole[HEADER_SIZE..][n..][..CRC_SIZE] == whole[HEADER_SIZE + n..HEADER_SIZE + n + CRC_SIZE]
    ensures whole[HEADER_SIZE..][n..][CRC_SIZE..] == whole[HEADER_SIZE + n + CRC_SIZE..]
    ensures whole[1..][..HEADER_SIZE - 1] == whole[1..HEADER_SIZE] && whole[1..][HEADER_SIZE - 1..] == whole[HEADER_SIZE..]
  {
  }

  // ---- Consecutive frames

  function Concat(frames: seq<Frame>): bytes
    requires forall i :: 0 <= i < |frames| ==> |frames[i].payload| <= MAX_PAYLOAD_SIZE
  {
    if frames == [] then [] else FrameBytes(frames[0]) + Concat(frames[1..])
  }

  /** Concatenated frames are read back one by one, and nothing is left over. */
  method ReadAllFrames(table: array<word>, frames: seq<Frame>) returns (received: seq<Frame>)
    requires IsTable(table[..]) && forall i :: 0 <= i < |frames| ==> |frames[i].payload| <= MAX_PAYLOAD_SIZE
    ensures received == frames
  {
    hide IsTable, FrameBytes, DecodeFrame;
    var stream := new ByteStream(Concat(frames));
    received := [];
    var done := false;
    while !done
      invariant fresh(stream) && |received| <= |frames| && received == frames[..|received|]
      invariant stream.input == Concat(frames[|received|..])
      invariant done ==> |received| == |frames|
      decreases |frames| - |received|, !done
    {
      ghost var k := |received|;
      if k < |frames| {
        FrameRoundTrip(frames[k], Concat(frames[k + 1..]));
        assert frames[k..][1..] == frames[k + 1..];
        assert stream.input == FrameBytes(frames[k]) + Concat(frames[k + 1..]);
        assert stream.input[FrameSize(frames[k])..] == Concat(frames[k + 1..]);
      }
      NonEmptyFrames(frames[k..]);
      var r := stream.ReadFrame(table);
      match r {
        case NoFrame => done := true;
        case Received(f) => received := received + [f];
        case Refused(_) => assert false;
      }
    }
  }

  lemma NonEmptyFrames(frames: seq<Frame>)
    requires forall i :: 0 <= i < |frames| ==> |frames[i].payload| <= MAX_PAYLOAD_SIZE
    ensures Concat(frames) == [] <==> frames == []
  {
    if frames != [] {
      FrameRoundTrip(frames[0], []);
    }
  }
}
