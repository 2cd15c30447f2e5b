/** The frame codec (RFC 7540, section 4.1) and the segmentation of a receive buffer.

    Frames are held and copied by value, in vectors, so a frame is a datatype; decoding into a
    default frame returns the frame as it then stands. */
module Frames {
  import opened Bytes

  const DATA_FRAME: byte := 0x00
  const HEADERS_FRAME: byte := 0x01
  const PRIORITY_FRAME: byte := 0x02
  const RST_STREAM_FRAME: byte := 0x03
  const SETTINGS_FRAME: byte := 0x04
  const PUSH_PROMISE_FRAME: byte := 0x05
  const PING_FRAME: byte := 0x06
  const GOAWAY_FRAME: byte := 0x07
  const WINDOW_UPDATE_FRAME: byte := 0x08
  const CONTINUATION_FRAME: byte := 0x09

  const ACK := 0x01
  const END_STREAM := 0x01
  const END_HEADERS := 0x04
  const PADDED := 0x08
  const PRIORITY := 0x20

  const MAX_PAYLOAD := 0xff_ffff

  datatype Frame = Frame(
    kind: byte, flags: byte, sid: uint32, payload: seq<byte>,
    hasPriority: bool, dependency: uint32, exclusive: bool, weight: nat)
  {
    /** `(flags & bit) == bit` for a single-bit mask. */
    predicate Has(bit: nat)
      requires bit > 0
    {
      flags / bit % 2 == 1
    }

    function Size(): nat {
      9 + |payload| + (if hasPriority then 5 else 0) + if Has(PADDED) then 1 else 0
    }
  }

  /** The constructor: no priority, and -1 as a 32-bit dependency. */
  function NewFrame(kind: byte, flags: byte, sid: uint32, payload: seq<byte>): Frame {
    Frame(kind, flags, sid, payload, false, 0xffff_ffff, false, 0)
  }

  const DEFAULT_FRAME := NewFrame(PING_FRAME, 0, 0, [])

  // ---------------------------------------------------------------- big-endian fields

  /** `uint8_t(v >> n)`, where `place` is 2^n. */
  function ByteOf(v: nat, place: nat): byte
    requires place > 0
  {
    v / place % 0x100
  }

  function BigEndian24(v: nat): (b: seq<byte>)
    ensures |b| == 3
  {
    [ByteOf(v, 0x1_0000), ByteOf(v, 0x100), ByteOf(v, 1)]
  }

  function BigEndian32(v: uint32): (b: seq<byte>)
    ensures |b| == 4
  {
    [ByteOf(v, 0x100_0000), ByteOf(v, 0x1_0000), ByteOf(v, 0x100), ByteOf(v, 1)]
  }

  function FromBytes24(b: seq<byte>): nat
    requires |b| >= 3
  {
    b[0] as int * 0x1_0000 + b[1] as int * 0x100 + b[2] as int
  }

  /** The top bit is masked off. */
  function FromBytes31(b: seq<byte>): (v: uint32)
    requires |b| >= 4
    ensures v < 0x8000_0000
  {
    b[0] as int % 0x80 * 0x100_0000 + FromBytes24(b[1..])
  }

  // ---------------------------------------------------------------- encoding

  function FrameHeader(length: nat, kind: byte, flags: byte, sid: uint32): (h: seq<byte>)
    requires length <= MAX_PAYLOAD
    ensures |h| == 9
  {
    BigEndian24(length) + [kind, flags] + BigEndian32(sid)
  }

  function EncodeFrame(f: Frame): (wire: seq<byte>)
    requires |f.payload| <= MAX_PAYLOAD
    ensures |wire| == 9 + |f.payload|
  {
    FrameHeader(|f.payload|, f.kind, f.flags, f.sid) + f.payload
  }

  /** Longer payloads make the encoder abort the process. */
  predicate AllEncodable(fs: seq<Frame>) {
    forall f <- fs :: |f.payload| <= MAX_PAYLOAD
  }

  function EncodeFrames(fs: seq<Frame>): seq<byte>
    requires AllEncodable(fs)
  {
    if |fs| == 0 then [] else EncodeFrame(fs[0]) + EncodeFrames(fs[1..])
  }

  /** Fills a buffer field by field. */
  method Encode(f: Frame) returns (wire: seq<byte>)
    requires |f.payload| <= MAX_PAYLOAD
    ensures wire == EncodeFrame(f)
  {
    hide ByteOf;
    var s := |f.payload|;
    wire := [];
    wire := wire + [ByteOf(s, 0x1_0000), ByteOf(s, 0x100), ByteOf(s, 1)];
    wire := wire + [f.kind, f.flags];
    wire := wire + [ByteOf(f.sid, 0x100_0000), ByteOf(f.sid, 0x1_0000), ByteOf(f.sid, 0x100), ByteOf(f.sid, 1)];
    wire := wire + f.payload;
  }

  // ---------------------------------------------------------------- decoding

  /** `Undefined` stands for the read past an empty padded payload, where the payload length
      wraps around. */
  datatype Status = Good | Bad | Undefined

  predicate CanBePadded(kind: byte) {
    kind == HEADERS_FRAME || kind == PUSH_PROMISE_FRAME || kind == DATA_FRAME
  }

  predicate CanHavePriority(kind: byte) {
    kind == HEADERS_FRAME || kind == PUSH_PROMISE_FRAME
  }

  /** The payload without its padding; `skipped` counts the bytes taken off the front. */
  datatype Unpadded = Unpadded(status: Status, skipped: nat, body: seq<byte>)

  function Unpad(f: Frame, payload: seq<byte>): Unpadded {
    if !(f.Has(PADDED) && CanBePadded(f.kind)) then Unpadded(Good, 0, payload)
    else if |payload| == 0 then Unpadded(Status.Undefined, 0, [])
    else if payload[0] > |payload| - 1 then Unpadded(Bad, 0, [])
    else Unpadded(Good, 1, payload[1..|payload| - payload[0]])
  }

  function WithPriority(f: Frame, fields: seq<byte>): Frame
    requires |fields| >= 5
  {
    f.(hasPriority := true, exclusive := fields[0] >= 0x80,
       dependency := FromBytes31(fields), weight := fields[4] as int + 1)
  }

  /** The comparisons with what was skipped in front are the code's own. */
  function DecodeBody(f: Frame, skipped: nat, body: seq<byte>): (Status, Frame) {
    if f.Has(PRIORITY) && CanHavePriority(f.kind) then
      if |body| < 5 + skipped then (Bad, f)
      else
        var g := WithPriority(f, body[..5]);
        if |body| - 5 < skipped + 5 then (Bad, g) else (Good, g.(payload := body[5..]))
    else if |body| < skipped then (Bad, f)
    else (Good, f.(payload := body))
  }

  function DecodePayload(f: Frame, payload: seq<byte>): (Status, Frame) {
    var r := Unpad(f, payload);
    if r.status != Good then (r.status, f) else DecodeBody(f, r.skipped, r.body)
  }

  function DecodeFrame(b: seq<byte>): (Status, Frame) {
    if |b| < 9 || |b| < 9 + FromBytes24(b) then (Bad, DEFAULT_FRAME)
    else
      DecodePayload(NewFrame(b[3], b[4], FromBytes31(b[5..]), []), b[9..9 + FromBytes24(b)])
  }

  method Decode(input: seq<byte>, begin: nat) returns (status: Status, f: Frame)
    requires begin <= |input|
    ensures (status, f) == DecodeFrame(input[begin..])
  {
    hide FromBytes24, FromBytes31, DecodeBody, CanBePadded, Frame.Has;
    ghost var b := input[begin..];
    f := DEFAULT_FRAME;
    if |input| - begin < 9 {
      return Bad, f;
    }
    var p := begin;
    var size := FromBytes24(input[p..]);
    if |input| - begin < 9 + size {
      return Bad, f;
    }
    assert input[p + 5..] == b[5..];
    f := NewFrame(input[p + 3], input[p + 4], FromBytes31(input[p + 5..]), []);
    ghost var payload := input[p + 9..p + 9 + size];
    SliceOfTail(input, begin, 9, 9 + size);
    p := p + 9;
    var payloadSize: int, headerStart := size, 0;
    if f.Has(PADDED) && CanBePadded(f.kind) {
      if payloadSize == 0 {
        return Status.Undefined, f;
      }
      var padLength: int := input[p];
      assert payload[0] == input[p];
      if padLength > payloadSize - 1 {
        return Bad, f;
      }
      headerStart := headerStart + 1;
      payloadSize := payloadSize - (padLength + 1);
      p := p + 1;
      SliceOfSlice(input, p - 1, p - 1 + size, 1, size - padLength);
    }
    assert Unpad(f, payload) == Unpadded(Good, headerStart, input[p..p + payloadSize]);
    status, f := FinishDecoding(input, p, payloadSize, headerStart, f);
  }

  /** The rest of `Decode`, from the priority fields on. */
  method FinishDecoding(input: seq<byte>, begin: nat, size: nat, skipped: nat, frame: Frame)
    returns (status: Status, f: Frame)
    requires begin + size <= |input|
    ensures (status, f) == DecodeBody(frame, skipped, input[begin..begin + size])
  {
    hide WithPriority, CanHavePriority, Frame.Has;
    ghost var body := input[begin..begin + size];
    f := frame;
    var p, payloadSize, headerStart := begin, size, skipped;
    if f.Has(PRIORITY) && CanHavePriority(f.kind) {
      if payloadSize < 5 + headerStart {
        return Bad, f;
      }
      assert input[p..p + 5] == body[..5];
      f := WithPriority(f, input[p..p + 5]);
      headerStart := headerStart + 5;
      payloadSize := payloadSize - 5;
      p := p + 5;
      assert body[5..] == input[p..p + payloadSize];
    }
    if payloadSize < headerStart {
      return Bad, f;
    }
    f := f.(payload := input[p..p + payloadSize]);
    status := Good;
  }

  // ---------------------------------------------------------------- segmentation

  /** The frames of a buffer; undefined when fewer than three bytes are left for a length, or
      when a frame's own decoding is. */
  datatype Segments = Segments(defined: bool, frames: seq<Frame>)

  function Segment(b: seq<byte>): Segments
    decreases |b|
  {
    if |b| == 0 then Segments(true, [])
    else if |b| < 3 then Segments(false, [])
    else
      var (status, f) := DecodeFrame(b);
      var next := 9 + FromBytes24(b);
      if status.Undefined? then Segments(false, [])
      else
        var rest := if next < |b| then Segment(b[next..]) else Segments(true, []);
        Segments(rest.defined, [f] + rest.frames)
  }

  /** A frame that fails to decode is logged and kept as it stands; the cursor moves on by the
      length on the wire. */
  method ToFrames(input: seq<byte>) returns (r: Segments)
    ensures r == Segment(input)
  {
    hide DecodeFrame, Segment, SegmentedUpTo, FromBytes24;
    var frames: seq<Frame> := [];
    var curr := 0;
    SegmentationStarts(input);
    while curr < |input|
      invariant 0 <= curr
      invariant SegmentedUpTo(input, curr, frames)
      decreases |input| - curr
    {
      SegmentStep(input, curr, frames);
      if |input| - curr < 3 {
        return Segments(false, frames);
      }
      var size := FromBytes24(input[curr..]);
      var status, f := Decode(input, curr);
      if status.Undefined? {
        return Segments(false, frames);
      }
      frames := frames + [f];
      curr := curr + 9 + size;
    }
    SegmentationEnds(input, curr, frames);
    r := Segments(true, frames);
  }

  /** What is left to do once `frames` have been cut off the first `curr` bytes. */
  ghost predicate SegmentedUpTo(input: seq<byte>, curr: nat, frames: seq<Frame>) {
    var rest := if curr < |input| then Segment(input[curr..]) else Segments(true, []);
    Segment(input) == Segments(rest.defined, frames + rest.frames)
  }

  lemma SegmentationStarts(input: seq<byte>)
    ensures SegmentedUpTo(input, 0, [])
  {
    hide Segment;
    assert input[0..] == input;
    assert |input| == 0 ==> Segment(input) == Segments(true, []) by {
      EmptySegment();
    }
  }

  lemma EmptySegment()
    ensures Segment([]) == Segments(true, [])
  {
  }

  lemma SegmentationEnds(input: seq<byte>, curr: nat, frames: seq<Frame>)
    requires curr >= |input| && SegmentedUpTo(input, curr, frames)
    ensures Segment(input) == Segments(true, frames)
  {
    hide Segment;
  }

  lemma SegmentStep(input: seq<byte>, curr: nat, frames: seq<Frame>)
    requires curr < |input| && SegmentedUpTo(input, curr, frames)
    ensures var b := input[curr..];
            if |b| < 3 || DecodeFrame(b).0.Undefined? then Segment(input) == Segments(false, frames)
            else SegmentedUpTo(input, curr + 9 + FromBytes24(b), frames + [DecodeFrame(b).1])
  {
    hide DecodeFrame, FromBytes24;
    var b := input[curr..];
    if |b| >= 3 && !DecodeFrame(b).0.Undefined? {
      var size, f := FromBytes24(b), DecodeFrame(b).1;
      if 9 + size < |b| {
        assert b[9 + size..] == input[curr + 9 + size..];
        ConcatAssociative(frames, [f], Segment(b[9 + size..]).frames);
      }
    }
  }

  // ---------------------------------------------------------------- round trips

  lemma BigEndian24RoundTrip(v: nat)
    requires v <= MAX_PAYLOAD
    ensures FromBytes24(BigEndian24(v)) == v
  {
    var high, mid, low := v / 0x1_0000, v / 0x100 % 0x100, v % 0x100;
    DivModUnique(v / 0x100, 0x100, v / 0x100 / 0x100, mid);
    DivModUnique(v, 0x1_0000, v / 0x100 / 0x100, 0x100 * mid + low);
  }

  /** The bytes of a word below the top one are those of its low 24 bits. */
  lemma LowBytes(v: uint32)
    ensures BigEndian32(v)[1..] == BigEndian24(v % 0x100_0000)
  {
    SecondByte(v);
    ThirdByte(v);
    FourthByte(v);
    hide ByteOf;
  }

  lemma SecondByte(v: uint32)
    ensures ByteOf(v, 0x1_0000) == ByteOf(v % 0x100_0000, 0x1_0000)
  {
    var q, r := v / 0x100_0000, v % 0x100_0000;
    var high := r / 0x1_0000;
    DivModUnique(v, 0x1_0000, 0x100 * q + high, r % 0x1_0000);
    DivModUnique(0x100 * q + high, 0x100, q, high);
  }

  lemma ThirdByte(v: uint32)
    ensures ByteOf(v, 0x100) == ByteOf(v % 0x100_0000, 0x100)
  {
    var q, r := v / 0x100_0000, v % 0x100_0000;
    var mid := r / 0x100;
    DivModUnique(v, 0x100, 0x1_0000 * q + mid, r % 0x100);
    DivModUnique(0x1_0000 * q + mid, 0x100, 0x100 * q + mid / 0x100, mid % 0x100);
  }

  lemma FourthByte(v: uint32)
    ensures ByteOf(v, 1) == ByteOf(v % 0x100_0000, 1)
  {
    var q, r := v / 0x100_0000, v % 0x100_0000;
    DivModUnique(v, 0x100, 0x1_0000 * q + r / 0x100, r % 0x100);
  }

  lemma TopByteOf(v: uint32)
    ensures v == ByteOf(v, 0x100_0000) as int * 0x100_0000 + v % 0x100_0000
  {
  }

  lemma HeaderFields(length: nat, kind: byte, flags: byte, sid: uint32, rest: seq<byte>)
    requires length <= MAX_PAYLOAD && sid < 0x8000_0000
    ensures var b := FrameHeader(length, kind, flags, sid) + rest;
            FromBytes24(b) == length && b[3] == kind && b[4] == flags && FromBytes31(b[5..]) == sid
  {
    var h := FrameHeader(length, kind, flags, sid);
    var b := h + rest;
    var n, s := BigEndian24(length), BigEndian32(sid);
    hide BigEndian24, BigEndian32;
    BigEndian24RoundTrip(length);
    DependencyRoundTrip(sid, false);
    assert b[0] == n[0] && b[1] == n[1] && b[2] == n[2];
    assert b[5] == s[0] && b[6] == s[1] && b[7] == s[2] && b[8] == s[3];
  }

  // ---------------------------------------------------------------- bytes on the wire

  lemma ThreeBytes(x: byte, y: byte, z: byte)
    ensures Value(BytesToBits([x, y, z])) == 0x1_0000 * x + 0x100 * y + z
  {
    hide Value, BytesToBits;
    NoBytes();
    assert [] + [x] == [x] && [x] + [y] == [x, y] && [x, y] + [z] == [x, y, z];
    NetworkOrder([], x);
    NetworkOrder([x], y);
    NetworkOrder([x, y], z);
  }

  lemma FourBytes(w: byte, x: byte, y: byte, z: byte)
    ensures Value(BytesToBits([w, x, y, z])) == 0x100_0000 * w + 0x1_0000 * x + 0x100 * y + z
  {
    hide Value, BytesToBits;
    NoBytes();
    assert [] + [w] == [w] && [w] + [x] == [w, x] && [w, x] + [y] == [w, x, y];
    assert [w, x, y] + [z] == [w, x, y, z];
    NetworkOrder([], w);
    NetworkOrder([w], x);
    NetworkOrder([w, x], y);
    NetworkOrder([w, x, y], z);
  }

  /** The bits behind the first are those of the number without its top bit. */
  lemma WithoutTopBit(bits: seq<bool>)
    requires |bits| == 32
    ensures Value(bits[1..]) == Value(bits) % 0x8000_0000
    ensures bits[0] <==> Value(bits) >= 0x8000_0000
  {
    hide Pow2;
    assert bits == bits[..1] + bits[1..];
    Pow2Literals();
    assert Pow2(31) == 0x8000_0000 by {
      Pow2Add(30, 1);
      OneBit(true);
      PowOne();
    }
    ValueSplit(bits[..1], bits[1..]);
    OneBit(bits[0]);
    assert bits[..1] == [bits[0]];
  }

  lemma OneBit(b: bool)
    ensures Value([b]) == if b then 1 else 0
  {
    assert [b][..0] == [];
  }

  lemma PowOne()
    ensures Pow2(1) == 2
  {
    assert Pow2(0) == 1;
  }

  /** The fields that are read, in terms of the bits on the wire, most significant first. */
  lemma ReadInNetworkOrder(b: seq<byte>)
    ensures |b| >= 3 ==> FromBytes24(b) == Value(BytesToBits(b[..3]))
    ensures |b| >= 4 ==> FromBytes31(b) == Value(BytesToBits(b[..4])[1..])
  {
    hide Value, BytesToBits;
    if |b| >= 3 {
      assert b[..3] == [b[0], b[1], b[2]];
      ThreeBytes(b[0], b[1], b[2]);
    }
    if |b| >= 4 {
      assert b[..4] == [b[0], b[1], b[2], b[3]];
      FourBytes(b[0], b[1], b[2], b[3]);
      WithoutTopBit(BytesToBits(b[..4]));
      DropTop(b[0], 0x1_0000 * b[1] as int + 0x100 * b[2] as int + b[3] as int);
    }
  }

  lemma DropTop(top: byte, low: nat)
    requires low < 0x100_0000
    ensures (0x100_0000 * top + low) % 0x8000_0000 == top % 0x80 * 0x100_0000 + low
  {
    DivModUnique(0x100_0000 * top + low, 0x8000_0000, top / 0x80, top % 0x80 * 0x100_0000 + low);
  }

  /** A 24-bit length and a 32-bit word, as they are written. */
  lemma WrittenInNetworkOrder(v: nat)
    ensures v <= MAX_PAYLOAD ==> Value(BytesToBits(BigEndian24(v))) == v
    ensures v < TWO_32 ==> Value(BytesToBits(BigEndian32(v))) == v
  {
    hide Value, BytesToBits, ByteOf;
    if v <= MAX_PAYLOAD {
      var b := BigEndian24(v);
      ThreeBytes(b[0], b[1], b[2]);
      assert b == [b[0], b[1], b[2]];
      BigEndian24RoundTrip(v);
    }
    if v < TWO_32 {
      var b := BigEndian32(v);
      FourBytes(b[0], b[1], b[2], b[3]);
      assert b == [b[0], b[1], b[2], b[3]];
      TopByteOf(v);
      LowBytes(v);
      BigEndian24RoundTrip(v % 0x100_0000);
    }
  }

  /** A frame on the wire (RFC 7540, section 4.1): 24 bits of length, the type, the flags, 32 bits of
      stream number, the payload. */
  lemma FrameOnWire(f: Frame)
    requires |f.payload| <= MAX_PAYLOAD
    ensures var b := EncodeFrame(f);
            && Value(BytesToBits(b[..3])) == |f.payload|
            && b[3] == f.kind && b[4] == f.flags
            && Value(BytesToBits(b[5..9])) == f.sid
            && b[9..] == f.payload
  {
    hide Value, BytesToBits, BigEndian24, BigEndian32;
    var b := EncodeFrame(f);
    assert b[..3] == BigEndian24(|f.payload|) && b[5..9] == BigEndian32(f.sid);
    WrittenInNetworkOrder(|f.payload|);
    WrittenInNetworkOrder(f.sid);
  }

  /** What is read of a complete frame in any bytes, whatever the outcome. */
  lemma FrameFromWire(b: seq<byte>)
    requires |b| >= 9 && |b| >= 9 + Value(BytesToBits(b[..3]))
    ensures var f := DecodeFrame(b).1;
            && f.kind == b[3] && f.flags == b[4]
            && f.sid == Value(BytesToBits(b[5..9])[1..])
  {
    hide Value, BytesToBits, FromBytes24, FromBytes31;
    ReadInNetworkOrder(b);
    ReadInNetworkOrder(b[5..]);
    assert b[5..][..4] == b[5..9];
  }

  /** Where `curr` moves to: behind the length that the first 24 bits give, and the header. */
  lemma SegmentOnWire(b: seq<byte>)
    requires |b| >= 3 && DecodeFrame(b).0 != Status.Undefined
    ensures var next := 9 + Value(BytesToBits(b[..3]));
            && |Segment(b).frames| > 0 && Segment(b).frames[0] == DecodeFrame(b).1
            && Segment(b).frames[1..] == if next < |b| then Segment(b[next..]).frames else []
  {
    hide Value, BytesToBits, FromBytes24, DecodeFrame, Segment;
    ReadInNetworkOrder(b);
    SegmentNext(b);
  }

  lemma SegmentNext(b: seq<byte>)
    requires |b| >= 3 && DecodeFrame(b).0 != Status.Undefined
    ensures var next := 9 + FromBytes24(b);
            Segment(b).frames == [DecodeFrame(b).1] + if next < |b| then Segment(b[next..]).frames else []
  {
    hide FromBytes24, DecodeFrame;
  }

  lemma LowBit(v: nat, n: nat)
    requires n > 0
    ensures BitsOf(v, n)[n - 1] == (v % 2 == 1)
    ensures forall i :: 0 <= i < n - 1 ==> BitsOf(v, n)[i] == BitsOf(v / 2, n - 1)[i]
  {
  }

  /** The flags, as bits of their byte; bit 7 is the lowest. */
  lemma FlagBits(f: Frame)
    ensures var bits := BitsOf(f.flags, 8);
            && f.Has(ACK) == bits[7] && f.Has(END_STREAM) == bits[7]
            && f.Has(END_HEADERS) == bits[5]
            && f.Has(PADDED) == bits[4]
            && f.Has(PRIORITY) == bits[2]
  {
    hide BitsOf;
    var v: nat := f.flags;
    LowBit(v, 8);
    LowBit(v / 2, 7);
    LowBit(v / 2 / 2, 6);
    LowBit(v / 2 / 2 / 2, 5);
    LowBit(v / 2 / 2 / 2 / 2, 4);
    LowBit(v / 2 / 2 / 2 / 2 / 2, 3);
    assert v / 2 / 2 == v / 4 && v / 4 / 2 == v / 8 && v / 8 / 2 == v / 16 && v / 16 / 2 == v / 32;
  }

  /** A complete frame, up to byte `end`. */
  predicate WholeFrame(b: seq<byte>, end: nat) {
    9 <= end <= |b| && end == 9 + Value(BytesToBits(b[..3]))
  }

  /** DATA (0), HEADERS (1) and PUSH_PROMISE (5) frames may be padded, the latter two may have
      priority fields. */
  predicate HasPadding(b: seq<byte>)
    requires |b| >= 9
  {
    BitsOf(b[4], 8)[4] && (b[3] == 0 || b[3] == 1 || b[3] == 5)
  }

  predicate HasPriorityFields(b: seq<byte>)
    requires |b| >= 9
  {
    BitsOf(b[4], 8)[2] && (b[3] == 1 || b[3] == 5)
  }

  lemma PartsOfFrame(b: seq<byte>, end: nat)
    requires WholeFrame(b, end)
    ensures var f := NewFrame(b[3], b[4], FromBytes31(b[5..]), []);
            && end <= |b| && DecodeFrame(b) == DecodePayload(f, b[9..end])
            && (HasPadding(b) <==> f.Has(PADDED) && CanBePadded(f.kind))
            && (HasPriorityFields(b) <==> f.Has(PRIORITY) && CanHavePriority(f.kind))
  {
    hide Value, BytesToBits, FromBytes24, FromBytes31, BitsOf, DecodePayload;
    ReadInNetworkOrder(b);
    FlagBits(NewFrame(b[3], b[4], FromBytes31(b[5..]), []));
  }

  /** Without optional parts all behind the header is payload. */
  lemma PlainFromWire(b: seq<byte>, end: nat)
    requires WholeFrame(b, end) && !HasPadding(b) && !HasPriorityFields(b)
    ensures DecodeFrame(b).0 == Good && DecodeFrame(b).1.payload == b[9..end]
  {
    hide WholeFrame, FromBytes31, HasPadding, HasPriorityFields, Frame.Has;
    PartsOfFrame(b, end);
  }

  /** With padding the first byte says how much of it there is at the end. */
  lemma PaddedFromWire(b: seq<byte>, end: nat)
    requires WholeFrame(b, end) && HasPadding(b) && !HasPriorityFields(b) && end > 9
    ensures DecodeFrame(b).1.payload == if 10 + b[9] <= end then b[10..end - b[9]] else []
    ensures DecodeFrame(b).0 == Good <==> 10 + b[9] < end
  {
    hide WholeFrame, FromBytes31, HasPadding, HasPriorityFields, Frame.Has;
    PartsOfFrame(b, end);
    var payload := b[9..end];
    assert payload[0] == b[9];
    if 10 + b[9] <= end {
      SliceOfSlice(b, 9, end, 1, |payload| - b[9]);
    }
  }

  /** Priority fields are a bit, 31 bits of stream number, and the weight less one. */
  lemma PriorityFromWire(b: seq<byte>, end: nat)
    requires WholeFrame(b, end) && !HasPadding(b) && HasPriorityFields(b) && end >= 14
    ensures var f := DecodeFrame(b).1;
            && f.hasPriority && f.weight == 1 + b[13] as int
            && f.exclusive == BytesToBits(b[9..13])[0]
            && f.dependency == Value(BytesToBits(b[9..13])[1..])
            && f.payload == if end >= 19 then b[14..end] else []
  {
    hide WholeFrame, FromBytes31, HasPadding, HasPriorityFields, Frame.Has, BytesToBits, Value;
    PartsOfFrame(b, end);
    var fields := b[9..14];
    assert b[9..end][..5] == fields && b[9..end][5..] == b[14..end];
    ReadInNetworkOrder(fields);
    assert fields[..4] == b[9..13] == [b[9], b[10], b[11], b[12]];
    FourBytes(b[9], b[10], b[11], b[12]);
    WithoutTopBit(BytesToBits(b[9..13]));
  }

  // ---------------------------------------------------------------- frames with optional fields

  /** The optional parts of a frame as RFC 7540 lays them out (sections 6.1 and 6.2). */
  datatype PriorityFields = PriorityFields(exclusive: bool, dependency: uint32, weight: nat)

  predicate ValidPriority(p: PriorityFields) {
    p.dependency < 0x8000_0000 && 1 <= p.weight <= 256
  }

  function PriorityBytes(p: PriorityFields): (b: seq<byte>)
    requires ValidPriority(p)
    ensures |b| == 5
  {
    BigEndian32(p.dependency + if p.exclusive then 0x8000_0000 else 0) + [p.weight - 1]
  }

  /** The payload on the wire: pad length, priority, fragment, padding. */
  function WirePayload(pad: Option<seq<byte>>, priority: Option<PriorityFields>, fragment: seq<byte>): seq<byte>
    requires pad.Some? ==> |pad.value| <= 0xff
    requires priority.Some? ==> ValidPriority(priority.value)
  {
    (if pad.Some? then [|pad.value|] else [])
    + (if priority.Some? then PriorityBytes(priority.value) else [])
    + fragment
    + (if pad.Some? then pad.value else [])
  }

  /** The flags announce exactly the optional parts that are there. */
  predicate Announces(f: Frame, pad: Option<seq<byte>>, priority: Option<PriorityFields>) {
    && (pad.Some? <==> f.Has(PADDED) && CanBePadded(f.kind))
    && (priority.Some? <==> f.Has(PRIORITY) && CanHavePriority(f.kind))
    && (pad.Some? ==> |pad.value| <= 0xff)
    && (priority.Some? ==> ValidPriority(priority.value))
  }

  /** The shortest fragment for which `decode` returns true, after the optional fields it strips.
      RFC 7540 allows an empty one. */
  function LeastFragment(pad: Option<seq<byte>>, priority: Option<PriorityFields>): nat {
    (if pad.Some? then 1 else 0) + if priority.Some? then 5 else 0
  }

  function Received(kind: byte, flags: byte, sid: uint32, priority: Option<PriorityFields>,
                    fragment: seq<byte>): Frame {
    var f := NewFrame(kind, flags, sid, fragment);
    match priority
    case None => f
    case Some(p) =>
      f.(hasPriority := true, exclusive := p.exclusive, dependency := p.dependency, weight := p.weight)
  }

  /** The frame as `decode` leaves it, whatever it returns: when the fragment is too short it is
      gone, and with padding and an empty fragment so are the priority fields. */
  function Kept(kind: byte, flags: byte, sid: uint32, pad: Option<seq<byte>>,
                priority: Option<PriorityFields>, fragment: seq<byte>): Frame {
    if |fragment| >= LeastFragment(pad, priority) then Received(kind, flags, sid, priority, fragment)
    else Received(kind, flags, sid, if pad.Some? && |fragment| == 0 then None else priority, [])
  }

  lemma DependencyRoundTrip(d: uint32, exclusive: bool)
    requires d < 0x8000_0000
    ensures var b := BigEndian32(d + if exclusive then 0x8000_0000 else 0);
            FromBytes31(b) == d && (b[0] >= 0x80 <==> exclusive)
  {
    var v: uint32 := d + if exclusive then 0x8000_0000 else 0;
    var b := BigEndian32(v);
    TopByteOf(v);
    assert b[0] == ByteOf(v, 0x100_0000);
    hide ByteOf, BigEndian24, BigEndian32, FromBytes24;
    LowBytes(v);
    BigEndian24RoundTrip(v % 0x100_0000);
  }

  lemma PriorityRoundTrip(f: Frame, p: PriorityFields)
    requires ValidPriority(p)
    ensures WithPriority(f, PriorityBytes(p))
         == f.(hasPriority := true, exclusive := p.exclusive, dependency := p.dependency, weight := p.weight)
  {
    hide BigEndian32;
    DependencyRoundTrip(p.dependency, p.exclusive);
    var d := BigEndian32(p.dependency + if p.exclusive then 0x8000_0000 else 0);
    var fields := PriorityBytes(p);
    assert fields[0] == d[0] && fields[1] == d[1] && fields[2] == d[2] && fields[3] == d[3];
  }

  lemma UnpadWire(f: Frame, pad: Option<seq<byte>>, priority: Option<PriorityFields>, fragment: seq<byte>)
    requires Announces(f, pad, priority)
    ensures var body := (if priority.Some? then PriorityBytes(priority.value) else []) + fragment;
            Unpad(f, WirePayload(pad, priority, fragment))
              == Unpadded(Good, if pad.Some? then 1 else 0, body)
  {
    hide PriorityBytes;
    var payload := WirePayload(pad, priority, fragment);
    var body := (if priority.Some? then PriorityBytes(priority.value) else []) + fragment;
    if pad.Some? {
      assert payload == [|pad.value|] + body + pad.value;
      assert payload[1..|payload| - |pad.value|] == body;
    } else {
      assert payload == body;
    }
  }

  lemma WirePayloadDecodes(kind: byte, flags: byte, sid: uint32, pad: Option<seq<byte>>,
                           priority: Option<PriorityFields>, fragment: seq<byte>)
    requires Announces(NewFrame(kind, flags, sid, []), pad, priority)
    ensures var (status, f) := DecodePayload(NewFrame(kind, flags, sid, []), WirePayload(pad, priority, fragment));
            && (status == Good <==> |fragment| >= LeastFragment(pad, priority))
            && f == Kept(kind, flags, sid, pad, priority, fragment)
            && status != Status.Undefined
  {
    hide PriorityBytes, WithPriority, WirePayload, Unpad;
    var f := NewFrame(kind, flags, sid, []);
    UnpadWire(f, pad, priority, fragment);
    if priority.Some? {
      PriorityRoundTrip(f, priority.value);
      var body := PriorityBytes(priority.value) + fragment;
      assert body[..5] == PriorityBytes(priority.value) && body[5..] == fragment;
    } else {
      assert [] + fragment == fragment;
    }
  }

  /** Padding and priority are stripped exactly if the fragment is not shorter than the fields
      stripped in front of it. Otherwise `decode` returns false, and the frame, which is kept all
      the same, is left without its fragment. */
  lemma WireFrame(kind: byte, flags: byte, sid: uint32, pad: Option<seq<byte>>,
                  priority: Option<PriorityFields>, fragment: seq<byte>, rest: seq<byte>)
    requires sid < 0x8000_0000
    requires Announces(NewFrame(kind, flags, sid, []), pad, priority)
    requires |WirePayload(pad, priority, fragment)| <= MAX_PAYLOAD
    ensures var payload := WirePayload(pad, priority, fragment);
            var wire := FrameHeader(|payload|, kind, flags, sid) + payload + rest;
            var (status, f) := DecodeFrame(wire);
            && FromBytes24(wire) == |payload|
            && (status == Good <==> |fragment| >= LeastFragment(pad, priority))
            && f == Kept(kind, flags, sid, pad, priority, fragment)
            && status != Status.Undefined
  {
    hide WirePayload, DecodePayload, FromBytes24, FromBytes31, FrameHeader, Kept;
    var payload := WirePayload(pad, priority, fragment);
    var header := FrameHeader(|payload|, kind, flags, sid);
    ConcatAssociative(header, payload, rest);
    HeaderFields(|payload|, kind, flags, sid, payload + rest);
    assert (header + payload + rest)[9..9 + |payload|] == payload;
    WirePayloadDecodes(kind, flags, sid, pad, priority, fragment);
  }

  /** A padded frame with an empty fragment, which RFC 7540 permits: `decode` returns false, but
      the frame it leaves is the right one. */
  lemma PaddedEmptyKept()
    ensures var wire := FrameHeader(1, DATA_FRAME, PADDED, 1) + [0];
            DecodeFrame(wire) == (Bad, NewFrame(DATA_FRAME, PADDED, 1, []))
  {
    HeaderFields(1, DATA_FRAME, PADDED, 1, [0]);
  }

  /** A frame with neither padding nor priority, as the server itself writes them. */
  predicate Plain(f: Frame) {
    && f == NewFrame(f.kind, f.flags, f.sid, f.payload)
    && f.sid < 0x8000_0000 && |f.payload| <= MAX_PAYLOAD
    && !(f.Has(PADDED) && CanBePadded(f.kind))
    && !(f.Has(PRIORITY) && CanHavePriority(f.kind))
  }

  lemma PlainRoundTrip(f: Frame, rest: seq<byte>)
    requires Plain(f)
    ensures DecodeFrame(EncodeFrame(f) + rest) == (Good, f)
    ensures FromBytes24(EncodeFrame(f) + rest) == |f.payload|
  {
    WireFrame(f.kind, f.flags, f.sid, None, None, f.payload, rest);
    assert WirePayload(None, None, f.payload) == f.payload;
  }

  /** Cutting a stream of encoded frames back into frames recovers exactly the frames. */
  lemma {:induction false} SegmentRoundTrip(fs: seq<Frame>)
    requires AllEncodable(fs) && forall f <- fs :: Plain(f)
    ensures Segment(EncodeFrames(fs)) == Segments(true, fs)
  {
    hide DecodeFrame, EncodeFrame, Plain;
    if |fs| > 0 {
      assert Plain(fs[0]);
      var rest := EncodeFrames(fs[1..]);
      PlainRoundTrip(fs[0], rest);
      SegmentRoundTrip(fs[1..]);
      assert (EncodeFrame(fs[0]) + rest)[9 + |fs[0].payload|..] == rest;
    }
  }

  // ---------------------------------------------------------------- frames from other peers

  /** A frame as any conforming peer may lay it out. */
  datatype Wire = Wire(kind: byte, flags: byte, sid: uint32, pad: Option<seq<byte>>,
                       priority: Option<PriorityFields>, fragment: seq<byte>)

  predicate LegalWire(w: Wire) {
    && w.sid < 0x8000_0000
    && Announces(NewFrame(w.kind, w.flags, w.sid, []), w.pad, w.priority)
    && |WirePayload(w.pad, w.priority, w.fragment)| <= MAX_PAYLOAD
  }

  function WireBytes(w: Wire): seq<byte>
    requires LegalWire(w)
  {
    var payload := WirePayload(w.pad, w.priority, w.fragment);
    FrameHeader(|payload|, w.kind, w.flags, w.sid) + payload
  }

  function AllWireBytes(ws: seq<Wire>): seq<byte>
    requires forall w <- ws :: LegalWire(w)
  {
    if |ws| == 0 then [] else WireBytes(ws[0]) + AllWireBytes(ws[1..])
  }

  /** What the peer means, and what the server makes of it. */
  function Meant(w: Wire): Frame {
    Received(w.kind, w.flags, w.sid, w.priority, w.fragment)
  }

  function KeptOf(w: Wire): Frame {
    Kept(w.kind, w.flags, w.sid, w.pad, w.priority, w.fragment)
  }

  function AllMeant(ws: seq<Wire>): (fs: seq<Frame>)
    ensures |fs| == |ws|
    ensures forall i :: 0 <= i < |ws| ==> fs[i] == Meant(ws[i])
  {
    if |ws| == 0 then [] else [Meant(ws[0])] + AllMeant(ws[1..])
  }

  function AllKept(ws: seq<Wire>): (fs: seq<Frame>)
    ensures |fs| == |ws|
    ensures forall i :: 0 <= i < |ws| ==> fs[i] == KeptOf(ws[i])
  {
    if |ws| == 0 then [] else [KeptOf(ws[0])] + AllKept(ws[1..])
  }

  /** A buffer of such frames is cut where they were joined, and each frame is what `decode` leaves
      of it. */
  lemma {:induction false} SegmentWires(ws: seq<Wire>)
    requires forall w <- ws :: LegalWire(w)
    ensures Segment(AllWireBytes(ws)) == Segments(true, AllKept(ws))
  {
    hide DecodeFrame, FrameHeader, WirePayload, LegalWire, FromBytes24, KeptOf;
    if |ws| > 0 {
      var w, rest := ws[0], AllWireBytes(ws[1..]);
      assert LegalWire(w);
      WireSplitsOff(w, rest);
      SegmentWires(ws[1..]);
      assert (WireBytes(w) + rest)[|WireBytes(w)|..] == rest;
    }
  }

  lemma WireSplitsOff(w: Wire, rest: seq<byte>)
    requires LegalWire(w)
    ensures |WireBytes(w)| == 9 + FromBytes24(WireBytes(w) + rest)
    ensures DecodeFrame(WireBytes(w) + rest).0 != Status.Undefined
    ensures DecodeFrame(WireBytes(w) + rest).1 == KeptOf(w)
  {
    hide DecodeFrame, WirePayload, FromBytes24, Kept, Announces, LeastFragment;
    WireFrame(w.kind, w.flags, w.sid, w.pad, w.priority, w.fragment, rest);
  }

  /** A fragment that `decode` does not lose. */
  predicate Survives(w: Wire) {
    |w.fragment| == 0 || |w.fragment| >= LeastFragment(w.pad, w.priority)
  }

  /** All that the handlers look at in a frame. */
  predicate SameToHandlers(f: Frame, g: Frame) {
    f.kind == g.kind && f.flags == g.flags && f.sid == g.sid && f.payload == g.payload
  }

  lemma KeptFields(w: Wire)
    ensures KeptOf(w).kind == w.kind && KeptOf(w).sid == w.sid
    ensures forall bit | bit > 0 :: KeptOf(w).Has(bit) == Meant(w).Has(bit)
    ensures KeptOf(w).payload == if Survives(w) then w.fragment else []
    ensures !Survives(w) ==> |w.fragment| > 0
  {
  }

  /** Over a whole buffer: every frame reaches the handlers with the fragment its peer gave it
      exactly when every fragment is empty or long enough. */
  lemma FragmentsSurvive(ws: seq<Wire>)
    requires forall w <- ws :: LegalWire(w)
    ensures var fs := Segment(AllWireBytes(ws)).frames;
            && |fs| == |ws|
            && ((forall i :: 0 <= i < |ws| ==> SameToHandlers(fs[i], Meant(ws[i]))) <==> forall w <- ws :: Survives(w))
  {
    hide Segment, WireBytes, AllWireBytes, LegalWire;
    SegmentWires(ws);
    forall i | 0 <= i < |ws|
      ensures SameToHandlers(AllKept(ws)[i], Meant(ws[i])) <==> Survives(ws[i])
    {
      assert AllKept(ws)[i] == KeptOf(ws[i]);
    }
    assert (forall w <- ws :: Survives(w)) <==> forall i :: 0 <= i < |ws| ==> Survives(ws[i]);
  }

  /** A HEADERS frame with END_STREAM, END_HEADERS and priority fields, whose block of one byte is
      lost. */
  const SHORT_BLOCK := Wire(HEADERS_FRAME, 0x25, 1, None, Some(PriorityFields(false, 0, 1)), [0x84])

  lemma ShortBlockLost()
    ensures LegalWire(SHORT_BLOCK)
    ensures KeptOf(SHORT_BLOCK).payload == [] && Meant(SHORT_BLOCK).payload == [0x84]
    ensures KeptOf(SHORT_BLOCK).Has(END_HEADERS)
  {
  }
}
