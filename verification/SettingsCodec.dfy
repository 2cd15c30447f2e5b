/** The six connection settings: setters that mark what changed, an encoder that sends just
    that, and the decoder on the other side (RFC 7540, section 6.5). */
module SettingsCodec {
  import opened Bytes
  import opened Frames

  const HEADER_TABLE_SIZE := 1
  const ENABLE_PUSH := 2
  const MAX_CONCURRENT_STREAMS := 3
  const INITIAL_WINDOW_SIZE := 4
  const MAX_FRAME_SIZE := 5
  const MAX_HEADER_LIST_SIZE := 6

  datatype Error = NO_ERROR | PROTOCOL_ERROR | FLOW_CONTROL_ERROR | FRAME_SIZE_ERROR

  predicate Known(id: nat) {
    1 <= id <= 6
  }

  predicate Legal(id: nat, value: uint32) {
    match id
    case 2 => value <= 1
    case 4 => value <= 2147483647
    case 5 => 16384 <= value <= 16777215
    case _ => true
  }

  function ErrorFor(id: nat): Error {
    if id == INITIAL_WINDOW_SIZE then FLOW_CONTROL_ERROR else PROTOCOL_ERROR
  }

  datatype Values = Values(
    headerTableSize: uint32, enablePush: uint32, maxConcurrentStreams: uint32,
    initialWindowSize: uint32, maxFrameSize: uint32, maxHeaderListSize: uint32)
  {
    function Get(id: nat): uint32
      requires Known(id)
    {
      match id
      case 1 => headerTableSize
      case 2 => enablePush
      case 3 => maxConcurrentStreams
      case 4 => initialWindowSize
      case 5 => maxFrameSize
      case _ => maxHeaderListSize
    }

    function With(id: nat, value: uint32): (v: Values)
      requires Known(id)
      ensures forall other | Known(other) :: v.Get(other) == if other == id then value else Get(other)
    {
      match id
      case 1 => this.(headerTableSize := value)
      case 2 => this.(enablePush := value)
      case 3 => this.(maxConcurrentStreams := value)
      case 4 => this.(initialWindowSize := value)
      case 5 => this.(maxFrameSize := value)
      case _ => this.(maxHeaderListSize := value)
    }
  }

  const DEFAULTS := Values(4096, 1, 0xffff_ffff, 65535, 16384, 0xffff_ffff)

  ghost predicate InRange(v: Values) {
    forall id | Known(id) :: Legal(id, v.Get(id))
  }

  lemma SameValues(v: Values, w: Values)
    requires forall id | Known(id) :: v.Get(id) == w.Get(id)
    ensures v == w
  {
    assert v.Get(1) == w.Get(1) && v.Get(2) == w.Get(2) && v.Get(3) == w.Get(3);
    assert v.Get(4) == w.Get(4) && v.Get(5) == w.Get(5) && v.Get(6) == w.Get(6);
  }

  // ---------------------------------------------------------------- the dirty bits

  function Bit(id: nat): bv8
    requires Known(id)
  {
    match id
    case 1 => 1
    case 2 => 2
    case 3 => 4
    case 4 => 8
    case 5 => 16
    case _ => 32
  }

  predicate IsDirty(dirty: bv8, id: nat)
    requires Known(id)
  {
    dirty & Bit(id) != 0
  }

  /** Marking one setting leaves the marks of the others alone. */
  lemma MarkOne(dirty: bv8, id: nat, other: nat)
    requires Known(id) && Known(other)
    ensures IsDirty(dirty | Bit(id), other) <==> other == id || IsDirty(dirty, other)
  {
    var b, c := Bit(id), Bit(other);
    assert (dirty | b) & c == (dirty & c) | (b & c);
    assert id == other ==> b & c != 0;
    assert id != other ==> b & c == 0;
  }

  // ---------------------------------------------------------------- encoding

  /** Identifier in two bytes, value in four. */
  function Item(id: nat, value: uint32): (b: seq<byte>)
    requires Known(id)
    ensures |b| == 6
  {
    [0, id] + BigEndian32(value)
  }

  /** The marked settings from `id` on, in the order of their identifiers. */
  function EncodeFrom(v: Values, dirty: bv8, id: nat): seq<byte>
    requires 1 <= id <= 7
    decreases 7 - id
  {
    if id == 7 then []
    else (if IsDirty(dirty, id) then Item(id, v.Get(id)) else []) + EncodeFrom(v, dirty, id + 1)
  }

  // ---------------------------------------------------------------- decoding

  function FromBytes32(b: seq<byte>): uint32
    requires |b| >= 4
  {
    b[0] as int * 0x100_0000 + FromBytes24(b[1..])
  }

  function IdOf(b: seq<byte>): nat
    requires |b| >= 6
  {
    b[0] as int * 0x100 + b[1] as int
  }

  /** Items are taken in order; the first one out of range stops with what was set before it. */
  function DecodeSettings(v: Values, b: seq<byte>): (Error, Values)
    decreases |b|
  {
    if |b| == 0 then (NO_ERROR, v)
    else if |b| < 6 then (FRAME_SIZE_ERROR, v)
    else
      var id, value := IdOf(b), FromBytes32(b[2..]);
      if !Known(id) then DecodeSettings(v, b[6..])
      else if !Legal(id, value) then (ErrorFor(id), v)
      else DecodeSettings(v.With(id, value), b[6..])
  }

  // ---------------------------------------------------------------- the settings object

  class Settings {
    var headerTableSize: uint32
    var enablePush: uint32
    var maxConcurrentStreams: uint32
    var initialWindowSize: uint32
    var maxFrameSize: uint32
    var maxHeaderListSize: uint32
    var dirty: bv8

    function View(): Values
      reads this
    {
      Values(headerTableSize, enablePush, maxConcurrentStreams, initialWindowSize, maxFrameSize, maxHeaderListSize)
    }

    constructor ()
      ensures View() == DEFAULTS && dirty == 0
    {
      headerTableSize, enablePush, maxConcurrentStreams := 4096, 1, 0xffff_ffff;
      initialWindowSize, maxFrameSize, maxHeaderListSize := 65535, 16384, 0xffff_ffff;
      dirty := 0;
    }

    method SetHeaderTableSize(value: uint32)
      modifies this
      ensures View() == old(View()).With(HEADER_TABLE_SIZE, value)
      ensures dirty == old(dirty) | Bit(HEADER_TABLE_SIZE)
    {
      headerTableSize := value;
      dirty := dirty | 1;
    }

    method SetEnablePush(enable: bool)
      modifies this
      ensures View() == old(View()).With(ENABLE_PUSH, if enable then 1 else 0)
      ensures dirty == old(dirty) | Bit(ENABLE_PUSH)
    {
      enablePush := if enable then 1 else 0;
      dirty := dirty | 2;
    }

    method SetMaxConcurrentStreams(value: uint32)
      modifies this
      ensures View() == old(View()).With(MAX_CONCURRENT_STREAMS, value)
      ensures dirty == old(dirty) | Bit(MAX_CONCURRENT_STREAMS)
    {
      maxConcurrentStreams := value;
      dirty := dirty | 4;
    }

    method SetInitialWindowSize(value: uint32)
      requires Legal(INITIAL_WINDOW_SIZE, value)
      modifies this
      ensures View() == old(View()).With(INITIAL_WINDOW_SIZE, value)
      ensures dirty == old(dirty) | Bit(INITIAL_WINDOW_SIZE)
    {
      initialWindowSize := value;
      dirty := dirty | 8;
    }

    method SetMaxFrameSize(value: uint32)
      requires Legal(MAX_FRAME_SIZE, value)
      modifies this
      ensures View() == old(View()).With(MAX_FRAME_SIZE, value)
      ensures dirty == old(dirty) | Bit(MAX_FRAME_SIZE)
    {
      maxFrameSize := value;
      dirty := dirty | 16;
    }

    method SetMaxHeaderListSize(value: uint32)
      modifies this
      ensures View() == old(View()).With(MAX_HEADER_LIST_SIZE, value)
      ensures dirty == old(dirty) | Bit(MAX_HEADER_LIST_SIZE)
    {
      maxHeaderListSize := value;
      dirty := dirty | 32;
    }

    method MarkClean()
      modifies this
      ensures View() == old(View()) && dirty == 0
    {
      dirty := 0;
    }

    method Encode(output: seq<byte>) returns (result: seq<byte>)
      ensures result == output + EncodeFrom(View(), dirty, 1)
    {
      hide EncodeFrom, Item, IsDirty;
      ghost var v, all := View(), output + EncodeFrom(View(), dirty, 1);
      result := output;
      EncodeStep(v, dirty, HEADER_TABLE_SIZE, result, all);
      if dirty & 1 != 0 {
        result := AppendItem(HEADER_TABLE_SIZE, headerTableSize, result);
      }
      EncodeStep(v, dirty, ENABLE_PUSH, result, all);
      if dirty & 2 != 0 {
        result := AppendItem(ENABLE_PUSH, enablePush, result);
      }
      EncodeStep(v, dirty, MAX_CONCURRENT_STREAMS, result, all);
      if dirty & 4 != 0 {
        result := AppendItem(MAX_CONCURRENT_STREAMS, maxConcurrentStreams, result);
      }
      EncodeStep(v, dirty, INITIAL_WINDOW_SIZE, result, all);
      if dirty & 8 != 0 {
        result := AppendItem(INITIAL_WINDOW_SIZE, initialWindowSize, result);
      }
      EncodeStep(v, dirty, MAX_FRAME_SIZE, result, all);
      if dirty & 16 != 0 {
        result := AppendItem(MAX_FRAME_SIZE, maxFrameSize, result);
      }
      EncodeStep(v, dirty, MAX_HEADER_LIST_SIZE, result, all);
      if dirty & 32 != 0 {
        result := AppendItem(MAX_HEADER_LIST_SIZE, maxHeaderListSize, result);
      }
      EncodeEnds(v, dirty, result);
    }

    /** Fields set before an error is met stay set. */
    method Decode(input: seq<byte>) returns (error: Error)
      modifies this
      ensures (error, View()) == DecodeSettings(old(View()), input)
      ensures dirty == old(dirty)
    {
      hide FromBytes32, IdOf;
      var p := 0;
      assert input[0..] == input;
      while p != |input|
        invariant 0 <= p <= |input| && dirty == old(dirty)
        invariant DecodeSettings(View(), input[p..]) == DecodeSettings(old(View()), input)
        decreases |input| - p
      {
        if |input| - p < 6 {
          return FRAME_SIZE_ERROR;
        }
        ghost var v, b := View(), input[p..];
        var id, value := IdOf(input[p..]), FromBytes32(input[p + 2..]);
        assert b[2..] == input[p + 2..] && b[6..] == input[p + 6..];
        p := p + 6;
        if id == HEADER_TABLE_SIZE {
          headerTableSize := value;
        } else if id == ENABLE_PUSH {
          if value != 0 && value != 1 {
            return PROTOCOL_ERROR;
          }
          enablePush := value;
        } else if id == MAX_CONCURRENT_STREAMS {
          maxConcurrentStreams := value;
        } else if id == INITIAL_WINDOW_SIZE {
          if value > 2147483647 {
            return FLOW_CONTROL_ERROR;
          }
          initialWindowSize := value;
        } else if id == MAX_FRAME_SIZE {
          if value < 16384 || value > 16777215 {
            return PROTOCOL_ERROR;
          }
          maxFrameSize := value;
        } else if id == MAX_HEADER_LIST_SIZE {
          maxHeaderListSize := value;
        }
        assert View() == if Known(id) then v.With(id, value) else v;
      }
      error := NO_ERROR;
    }
  }

  method AppendItem(id: nat, value: uint32, output: seq<byte>) returns (result: seq<byte>)
    requires Known(id)
    ensures result == output + Item(id, value)
  {
    result := output + [id / 0x100 % 0x100, id % 0x100];
    hide ByteOf;
    result := result + [ByteOf(value, 0x100_0000), ByteOf(value, 0x1_0000), ByteOf(value, 0x100), ByteOf(value, 1)];
  }

  lemma EncodeStep(v: Values, dirty: bv8, id: nat, output: seq<byte>, all: seq<byte>)
    requires Known(id) && output + EncodeFrom(v, dirty, id) == all
    ensures (if dirty & Bit(id) != 0 then output + Item(id, v.Get(id)) else output)
            + EncodeFrom(v, dirty, id + 1) == all
  {
    hide Item, Bit;
    var rest := EncodeFrom(v, dirty, id + 1);
    if IsDirty(dirty, id) {
      assert EncodeFrom(v, dirty, id) == Item(id, v.Get(id)) + rest;
      ConcatAssociative(output, Item(id, v.Get(id)), rest);
    } else {
      assert EncodeFrom(v, dirty, id) == [] + rest == rest;
    }
  }

  lemma EncodeEnds(v: Values, dirty: bv8, output: seq<byte>)
    ensures output + EncodeFrom(v, dirty, 7) == output
  {
  }

  // ---------------------------------------------------------------- bytes on the wire

  lemma WordOnWire(b: seq<byte>)
    requires |b| >= 4
    ensures FromBytes32(b) == Value(BytesToBits(b[..4]))
  {
    hide Value, BytesToBits;
    assert b[..4] == [b[0], b[1], b[2], b[3]];
    FourBytes(b[0], b[1], b[2], b[3]);
  }

  lemma TwoBytes(x: byte, y: byte)
    ensures Value(BytesToBits([x, y])) == 0x100 * x + y
  {
    hide Value, BytesToBits;
    NoBytes();
    assert [] + [x] == [x] && [x] + [y] == [x, y];
    NetworkOrder([], x);
    NetworkOrder([x], y);
  }

  /** An item is 16 bits of identifier and 32 bits of value, the highest first. */
  lemma ItemOnWire(id: nat, value: uint32)
    requires Known(id)
    ensures Value(BytesToBits(Item(id, value)[..2])) == id
    ensures Value(BytesToBits(Item(id, value)[2..])) == value
  {
    hide Value, BytesToBits, BigEndian32;
    TwoBytes(0, id);
    WrittenInNetworkOrder(value);
    assert Item(id, value)[..2] == [0, id] && Item(id, value)[2..] == BigEndian32(value);
  }

  function Marked(dirty: bv8, id: nat, value: uint32): seq<byte>
    requires Known(id)
  {
    if IsDirty(dirty, id) then Item(id, value) else []
  }

  /** The identifiers of RFC 7540, section 6.5.2, by the names of the settings. */
  lemma SettingsByName(v: Values, dirty: bv8)
    ensures EncodeFrom(v, dirty, 1)
         == Marked(dirty, 1, v.headerTableSize)
            + (Marked(dirty, 2, v.enablePush)
               + (Marked(dirty, 3, v.maxConcurrentStreams)
                  + (Marked(dirty, 4, v.initialWindowSize)
                     + (Marked(dirty, 5, v.maxFrameSize) + Marked(dirty, 6, v.maxHeaderListSize)))))
  {
    hide Marked;
    EncodeOne(v, dirty, 1);
    EncodeOne(v, dirty, 2);
    EncodeOne(v, dirty, 3);
    EncodeOne(v, dirty, 4);
    EncodeOne(v, dirty, 5);
    EncodeOne(v, dirty, 6);
    assert EncodeFrom(v, dirty, 7) == [];
    hide EncodeFrom;
    assert Marked(dirty, 6, v.Get(6)) + [] == Marked(dirty, 6, v.Get(6));
  }

  lemma EncodeOne(v: Values, dirty: bv8, id: nat)
    requires Known(id)
    ensures EncodeFrom(v, dirty, id) == Marked(dirty, id, v.Get(id)) + EncodeFrom(v, dirty, id + 1)
  {
    hide Item;
  }

  /** What the first item of any bytes does, by the bits of its two fields. */
  lemma ItemFromWire(v: Values, b: seq<byte>)
    requires |b| >= 6
    ensures var id, value, rest := Value(BytesToBits(b[..2])), FromBytes32(b[2..]), b[6..];
            && value == Value(BytesToBits(b[2..6]))
            && DecodeSettings(v, b) ==
               match id
               case 1 => DecodeSettings(v.(headerTableSize := value), rest)
               case 2 => if value <= 1 then DecodeSettings(v.(enablePush := value), rest) else (PROTOCOL_ERROR, v)
               case 3 => DecodeSettings(v.(maxConcurrentStreams := value), rest)
               case 4 =>
                 if value < 0x8000_0000 then DecodeSettings(v.(initialWindowSize := value), rest)
                 else (FLOW_CONTROL_ERROR, v)
               case 5 =>
                 if 0x4000 <= value < 0x100_0000 then DecodeSettings(v.(maxFrameSize := value), rest)
                 else (PROTOCOL_ERROR, v)
               case 6 => DecodeSettings(v.(maxHeaderListSize := value), rest)
               case _ => DecodeSettings(v, rest)
  {
    hide Value, BytesToBits, FromBytes32;
    assert b[..2] == [b[0], b[1]];
    TwoBytes(b[0], b[1]);
    WordOnWire(b[2..]);
    assert b[2..][..4] == b[2..6];
  }

  // ---------------------------------------------------------------- any input

  /** Whatever arrives, and even when it is rejected, the values stay in range. */
  lemma {:induction false} DecodeKeepsRange(v: Values, b: seq<byte>)
    requires InRange(v)
    ensures InRange(DecodeSettings(v, b).1)
    decreases |b|
  {
    hide FromBytes32, IdOf, Values.Get;
    if |b| >= 6 {
      var id, value := IdOf(b), FromBytes32(b[2..]);
      if !Known(id) {
        DecodeKeepsRange(v, b[6..]);
      } else if Legal(id, value) {
        DecodeKeepsRange(v.With(id, value), b[6..]);
      }
    }
  }

  /** The item at position `i` is one that the decoder lets pass. */
  predicate Passes(b: seq<byte>, i: nat)
    requires 6 * i + 6 <= |b|
  {
    var item := b[6 * i..6 * i + 6];
    Known(IdOf(item)) ==> Legal(IdOf(item), FromBytes32(item[2..]))
  }

  lemma PassesTail(b: seq<byte>, i: nat)
    requires 6 * i + 12 <= |b|
    ensures Passes(b[6..], i) <==> Passes(b, i + 1)
  {
    SliceOfTail(b, 6, 6 * i, 6 * i + 6);
  }

  lemma PassesFirst(b: seq<byte>)
    requires |b| >= 6
    ensures Passes(b, 0) <==> (Known(IdOf(b)) ==> Legal(IdOf(b), FromBytes32(b[2..])))
  {
    assert b[..6][2..] == b[2..6];
    assert b[..6][0] == b[0] && b[..6][1] == b[1];
    assert b[2..6][1..] == b[3..6] && b[2..][1..] == b[3..];
  }

  /** Accepted exactly when the bytes are whole items, all of them in range or unknown. */
  lemma {:induction false} AcceptedExactly(v: Values, b: seq<byte>)
    ensures DecodeSettings(v, b).0 == NO_ERROR <==>
            |b| % 6 == 0 && forall i: nat | 6 * i + 6 <= |b| :: Passes(b, i)
    decreases |b|
  {
    hide FromBytes32, IdOf, Passes, Values.With;
    if |b| >= 6 {
      var id, value, rest := IdOf(b), FromBytes32(b[2..]), b[6..];
      PassesFirst(b);
      AcceptedExactly(if Known(id) then v.With(id, value) else v, rest);
      forall i: nat | 6 * i + 6 <= |rest|
        ensures Passes(rest, i) <==> Passes(b, i + 1)
      {
        PassesTail(b, i);
      }
      assert forall i: nat | 6 * i + 6 <= |b| :: i == 0 || Passes(rest, i - 1) == Passes(b, i);
      assert forall i: nat | 6 * i + 6 <= |rest| :: 6 * (i + 1) + 6 <= |b|;
    }
  }

  // ---------------------------------------------------------------- round trip

  lemma WordRoundTrip(value: uint32)
    ensures FromBytes32(BigEndian32(value)) == value
  {
    TopByteOf(value);
    assert BigEndian32(value)[0] == ByteOf(value, 0x100_0000);
    hide ByteOf, BigEndian24, BigEndian32, FromBytes24;
    LowBytes(value);
    BigEndian24RoundTrip(value % 0x100_0000);
  }

  lemma ItemRoundTrip(id: nat, value: uint32, rest: seq<byte>)
    requires Known(id)
    ensures var b := Item(id, value) + rest;
            IdOf(b) == id && FromBytes32(b[2..]) == value && b[6..] == rest
  {
    hide BigEndian32;
    var b, word := Item(id, value) + rest, BigEndian32(value);
    WordRoundTrip(value);
    assert b[2..] == word + rest;
    assert (word + rest)[1..][..3] == word[1..];
  }

  /** `w` overwritten with the marked settings of `v` from `id` on. */
  function Merge(w: Values, v: Values, dirty: bv8, id: nat): (r: Values)
    requires 1 <= id <= 7
    ensures forall k: nat | Known(k) ::
              r.Get(k) == if k >= id && IsDirty(dirty, k) then v.Get(k) else w.Get(k)
    decreases 7 - id
  {
    if id == 7 then w
    else Merge(if IsDirty(dirty, id) then w.With(id, v.Get(id)) else w, v, dirty, id + 1)
  }

  lemma {:induction false} MergeRoundTrip(w: Values, v: Values, dirty: bv8, id: nat)
    requires 1 <= id <= 7 && InRange(v)
    ensures DecodeSettings(w, EncodeFrom(v, dirty, id)) == (NO_ERROR, Merge(w, v, dirty, id))
    decreases 7 - id
  {
    hide Item, IdOf, FromBytes32, IsDirty, Values.Get, Values.With;
    if id < 7 {
      var rest := EncodeFrom(v, dirty, id + 1);
      if IsDirty(dirty, id) {
        ItemRoundTrip(id, v.Get(id), rest);
        assert Legal(id, v.Get(id));
        MergeRoundTrip(w.With(id, v.Get(id)), v, dirty, id + 1);
      } else {
        assert [] + rest == rest;
        MergeRoundTrip(w, v, dirty, id + 1);
      }
    }
  }

  /** Decoding what was encoded is accepted, sets exactly the marked settings, and leaves the
      others as they were. */
  lemma SettingsRoundTrip(w: Values, v: Values, dirty: bv8)
    requires InRange(v)
    ensures var (error, r) := DecodeSettings(w, EncodeFrom(v, dirty, 1));
            && error == NO_ERROR
            && forall id | Known(id) :: r.Get(id) == if IsDirty(dirty, id) then v.Get(id) else w.Get(id)
  {
    MergeRoundTrip(w, v, dirty, 1);
  }

  // ---------------------------------------------------------------- two ends over whole runs

  /** A sender with its marks, and the peer's idea of the sender's settings. */
  datatype Ends = Ends(sender: Values, dirty: bv8, peer: Values, error: Error)

  /** A legal setter call, or a flush: encode, decode at the peer, mark clean. */
  datatype Op = Set(id: nat, value: uint32) | Flush

  predicate LegalOp(op: Op) {
    op.Set? ==> Known(op.id) && Legal(op.id, op.value)
  }

  function Perform(s: Ends, op: Op): Ends
    requires LegalOp(op)
  {
    match op
    case Set(id, value) => s.(sender := s.sender.With(id, value), dirty := s.dirty | Bit(id))
    case Flush =>
      var (error, peer) := DecodeSettings(s.peer, EncodeFrom(s.sender, s.dirty, 1));
      Ends(s.sender, 0, peer, error)
  }

  function PerformAll(s: Ends, ops: seq<Op>): Ends
    requires forall op <- ops :: LegalOp(op)
  {
    if |ops| == 0 then s
    else Perform(PerformAll(s, ops[..|ops| - 1]), ops[|ops| - 1])
  }

  const IN_STEP := Ends(DEFAULTS, 0, DEFAULTS, NO_ERROR)

  /** No flush has failed, and where the two ends differ, the sender knows. */
  ghost predicate Synchronised(s: Ends) {
    && s.error == NO_ERROR
    && InRange(s.sender) && InRange(s.peer)
    && forall id | Known(id) :: s.sender.Get(id) != s.peer.Get(id) ==> IsDirty(s.dirty, id)
  }

  lemma SetKeepsSynchronised(s: Ends, op: Op)
    requires Synchronised(s) && LegalOp(op) && op.Set?
    ensures Synchronised(Perform(s, op))
  {
    hide IsDirty, Values.Get, Values.With;
    forall id | Known(id)
      ensures IsDirty(s.dirty | Bit(op.id), id) <==> id == op.id || IsDirty(s.dirty, id)
    {
      MarkOne(s.dirty, op.id, id);
    }
  }

  lemma FlushSynchronises(s: Ends)
    requires Synchronised(s)
    ensures Synchronised(Perform(s, Flush))
    ensures Perform(s, Flush).peer == s.sender == Perform(s, Flush).sender
  {
    hide IsDirty, Values.Get, DecodeSettings, EncodeFrom;
    SettingsRoundTrip(s.peer, s.sender, s.dirty);
    SameValues(Perform(s, Flush).peer, s.sender);
  }

  /** From the defaults on, through any legal setters and flushes: no flush fails, right after
      one both ends agree on all six settings, and otherwise they differ on marked ones only. */
  lemma {:induction false} StaysSynchronised(ops: seq<Op>)
    requires forall op <- ops :: LegalOp(op)
    ensures Synchronised(PerformAll(IN_STEP, ops))
    ensures |ops| > 0 && ops[|ops| - 1].Flush? ==>
              PerformAll(IN_STEP, ops).peer == PerformAll(IN_STEP, ops).sender
  {
    hide Perform, Synchronised;
    if |ops| == 0 {
      StartSynchronised();
    } else {
      var init, last := ops[..|ops| - 1], ops[|ops| - 1];
      StaysSynchronised(init);
      if last.Flush? {
        FlushSynchronises(PerformAll(IN_STEP, init));
      } else {
        SetKeepsSynchronised(PerformAll(IN_STEP, init), last);
      }
    }
  }

  lemma StartSynchronised()
    ensures Synchronised(IN_STEP)
  {
  }

  // ---------------------------------------------------------------- the server as the peer

  /** The server decodes each SETTINGS frame into a new object, and keeps that object in place of
      the one before if it was accepted. */
  function Acknowledged(stored: Values, payload: seq<byte>): Values {
    var (error, v) := DecodeSettings(DEFAULTS, payload);
    if error == NO_ERROR then v else stored
  }

  /** So it agrees with the client exactly when every setting that the frame leaves out is at its
      default. RFC 7540 keeps such settings at their last value. */
  lemma AcknowledgedAgrees(stored: Values, v: Values, dirty: bv8)
    requires InRange(v)
    ensures Acknowledged(stored, EncodeFrom(v, dirty, 1)) == v <==>
            forall id | Known(id) :: IsDirty(dirty, id) || v.Get(id) == DEFAULTS.Get(id)
  {
    hide IsDirty, Values.Get, DecodeSettings, EncodeFrom;
    SettingsRoundTrip(DEFAULTS, v, dirty);
    var r := Acknowledged(stored, EncodeFrom(v, dirty, 1));
    if forall id | Known(id) :: r.Get(id) == v.Get(id) {
      SameValues(r, v);
    }
  }

  /** A second frame makes the server forget what the first one said. */
  lemma SecondFrameForgets()
    ensures var v1 := DEFAULTS.With(HEADER_TABLE_SIZE, 8192);
            var v2 := v1.With(ENABLE_PUSH, 0);
            var stored := Acknowledged(DEFAULTS, EncodeFrom(v1, Bit(HEADER_TABLE_SIZE), 1));
            && stored == v1
            && Acknowledged(stored, EncodeFrom(v2, Bit(ENABLE_PUSH), 1)) != v2
  {
    hide DecodeSettings, EncodeFrom, Acknowledged;
    var v1 := DEFAULTS.With(HEADER_TABLE_SIZE, 8192);
    var v2 := v1.With(ENABLE_PUSH, 0);
    AcknowledgedAgrees(DEFAULTS, v1, Bit(HEADER_TABLE_SIZE));
    assert forall id | Known(id) :: IsDirty(Bit(HEADER_TABLE_SIZE), id) || v1.Get(id) == DEFAULTS.Get(id);
    AcknowledgedAgrees(v1, v2, Bit(ENABLE_PUSH));
    assert !IsDirty(Bit(ENABLE_PUSH), HEADER_TABLE_SIZE);
  }
}
