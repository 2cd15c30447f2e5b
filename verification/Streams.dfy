/** The streams of one connection: how HEADERS and CONTINUATION frames are put together into
    header blocks, which all streams decode with one shared HPACK decoder. */
module Streams {
  import opened Bytes
  import opened Frames
  import opened HeaderTable
  import opened HpackDecoder
  import SettingsCodec

  datatype StreamState =
    IDLE | RESERVED_LOCAL | RESERVED_REMOTE | OPEN | HALF_CLOSED_LOCAL | HALF_CLOSED_REMOTE | CLOSED

  /** What a stream object holds. */
  datatype StreamValue = StreamValue(
    id: uint32, state: StreamState, data: seq<byte>, fragments: seq<byte>, headers: seq<Header>,
    endHeader: bool, endStream: bool)

  function NewStream(id: uint32): StreamValue {
    StreamValue(id, IDLE, [], [], [], false, false)
  }

  /** A header list handed to the code that responds, and the stream it came on. */
  datatype Request = Request(sid: uint32, headers: seq<Header>)

  /** What a connection holds: its streams, the decoder's table, the peer's settings, and whether
      its descriptor is marked closed; `requests` is the history of what was handed on for a
      response. */
  datatype Connection = Connection(
    streams: map<uint32, StreamValue>, table: Table, settings: SettingsCodec.Values,
    errorCode: int, closed: bool, requests: seq<Request>)

  const NEW_CONNECTION :=
    Connection(map[], Table(DEFAULT_MAX_SIZE, []), SettingsCodec.DEFAULTS, 0, false, [])

  /** What handling a frame comes to: a new state and a verdict that is only logged, or the
      decoder's undefined shift. */
  datatype Reply = Handled(conn: Connection, ok: bool) | Undefined

  // ---------------------------------------------------------------- what the handlers do

  predicate HasPath(headers: seq<Header>) {
    exists h <- headers :: h.name == Ascii(":path")
  }

  /** What a stream is after its block has been decoded. Only an exception leaves it open and
      keeps the fragments; a block that is merely rejected counts as received. */
  function Decoded(s: StreamValue, outcome: Outcome, delivered: seq<Header>): StreamValue {
    var heard := s.(headers := s.headers + delivered);
    if outcome == Threw then heard
    else heard.(state := HALF_CLOSED_REMOTE, endHeader := true, fragments := [])
  }

  /** A block is complete: unless decoding throws, the headers received on the stream are handed
      on. `served` says whether the response could be built and sent. */
  ghost function EndHeader(c: Connection, sid: uint32, served: bool): Reply
    requires sid in c.streams
  {
    var r := DecodeBlock(c.table, c.streams[sid].fragments);
    var s := Decoded(c.streams[sid], r.outcome, r.headers);
    if r.outcome == Outcome.Undefined then Reply.Undefined
    else
      var handed := if r.outcome == Threw then [] else [Request(sid, s.headers)];
      Handled(c.(streams := c.streams[sid := s], table := r.table, requests := c.requests + handed),
              r.outcome != Threw && HasPath(s.headers) && served)
  }

  function WithStream(c: Connection, sid: uint32): (r: Connection)
    ensures sid in r.streams
  {
    if sid in c.streams then c else c.(streams := c.streams[sid := NewStream(sid)])
  }

  /** One more fragment of a header block. */
  function Extended(s: StreamValue, f: Frame): StreamValue {
    s.(endHeader := f.Has(END_HEADERS), endStream := f.Has(END_STREAM), fragments := s.fragments + f.payload)
  }

  /** The stream that a HEADERS frame starts, or starts again. */
  function Opened(c: Connection, f: Frame): (r: Connection)
    ensures f.sid in r.streams
  {
    var known := WithStream(c, f.sid);
    known.(streams := known.streams[f.sid := Extended(known.streams[f.sid], f).(state := OPEN)])
  }

  function Without(c: Connection, sid: uint32): Connection {
    c.(streams := c.streams - {sid})
  }

  /** END_STREAM drops the stream at once, complete or not. */
  ghost function AfterOpened(c: Connection, f: Frame, served: bool): Reply
    requires f.sid in c.streams
  {
    var reply := if f.Has(END_HEADERS) then EndHeader(c, f.sid, served) else Handled(c, true);
    if reply.Undefined? then reply
    else Handled(if f.Has(END_STREAM) then Without(reply.conn, f.sid) else reply.conn, true)
  }

  ghost function Headers(c: Connection, f: Frame, served: bool): Reply {
    AfterOpened(Opened(c, f), f, served)
  }

  function Continued(c: Connection, f: Frame): Connection
    requires f.sid in c.streams
  {
    c.(streams := c.streams[f.sid := Extended(c.streams[f.sid], f)])
  }

  ghost function Continuation(c: Connection, f: Frame, served: bool): Reply {
    if f.sid !in c.streams then Handled(c, false)
    else
      var s := c.streams[f.sid];
      if !s.state.OPEN? && !s.state.HALF_CLOSED_REMOTE? then Handled(c, false)
      else if f.Has(END_HEADERS) then EndHeader(Continued(c, f), f.sid, served)
      else Handled(Continued(c, f), true)
  }

  function Data(c: Connection, f: Frame): Reply {
    if f.sid !in c.streams || !c.streams[f.sid].state.OPEN? then Handled(c, false)
    else
      var s := c.streams[f.sid];
      Handled(c.(streams := c.streams[f.sid := s.(
        data := s.data + f.payload, endHeader := f.Has(END_HEADERS), endStream := f.Has(END_STREAM))]), true)
  }

  function Reset(c: Connection, f: Frame): Reply {
    if f.sid !in c.streams || c.streams[f.sid].state.CLOSED? then Handled(c, false)
    else Handled(Without(c, f.sid), true)
  }

  /** The settings of an accepted frame replace those held; the frame that acknowledges it is
      sent, but whether that worked is not looked at. */
  function ApplySettings(c: Connection, f: Frame): Reply {
    if f.sid != 0 then Handled(c, false)
    else if f.Has(ACK) then Handled(c, true)
    else
      Handled(c.(settings := SettingsCodec.Acknowledged(c.settings, f.payload)),
              SettingsCodec.DecodeSettings(SettingsCodec.DEFAULTS, f.payload).0.NO_ERROR?)
  }

  function GoAway(c: Connection): Connection {
    c.(streams := map[], errorCode := 0, closed := true)
  }

  /** PRIORITY frames are refused, because none comes out of the frame decoder with its priority
      set. For a PING frame `served` says whether the answer could be sent. */
  ghost function Handle(c: Connection, f: Frame, served: bool): Reply {
    if f.kind == DATA_FRAME then Data(c, f)
    else if f.kind == HEADERS_FRAME then Headers(c, f, served)
    else if f.kind == RST_STREAM_FRAME then Reset(c, f)
    else if f.kind == SETTINGS_FRAME then ApplySettings(c, f)
    else if f.kind == PING_FRAME then Handled(c, f.sid == 0 && served)
    else if f.kind == GOAWAY_FRAME then Handled(GoAway(c), true)
    else if f.kind == CONTINUATION_FRAME then Continuation(c, f, served)
    else Handled(c, f.kind == PUSH_PROMISE_FRAME || f.kind == WINDOW_UPDATE_FRAME)
  }

  /** The frame types of RFC 7540, section 6, by number. */
  lemma HandlesByNumber(c: Connection, f: Frame, served: bool)
    ensures Handle(c, f, served) ==
            match f.kind
            case 0 => Data(c, f)
            case 1 => Headers(c, f, served)
            case 3 => Reset(c, f)
            case 4 => ApplySettings(c, f)
            case 6 => Handled(c, f.sid == 0 && served)
            case 7 => Handled(GoAway(c), true)
            case 9 => Continuation(c, f, served)
            case _ => Handled(c, f.kind == 5 || f.kind == 8)
  {
    hide Data, Headers, Reset, ApplySettings, Continuation;
  }

  /** The decoder reads priority fields in HEADERS and PUSH_PROMISE frames only. */
  lemma NoPriorityFrames(b: seq<byte>)
    ensures DecodeFrame(b).1.kind == PRIORITY_FRAME ==> !DecodeFrame(b).1.hasPriority
  {
    hide FromBytes24, FromBytes31, Frame.Has;
  }

  /** A frame, and whether what it asks for could be sent. */
  datatype Input = Input(frame: Frame, served: bool)

  ghost function After(c: Connection, input: Input): Option<Connection> {
    match Handle(c, input.frame, input.served)
    case Undefined => None
    case Handled(c', _) => Some(c')
  }

  /** The state after a run, unless the decoder's undefined shift is met on the way. */
  ghost function RunFrames(c: Connection, inputs: seq<Input>): Option<Connection> {
    if |inputs| == 0 then Some(c)
    else
      match RunFrames(c, inputs[..|inputs| - 1])
      case None => None
      case Some(c') => After(c', inputs[|inputs| - 1])
  }

  function Inputs(frames: seq<Frame>, served: nat -> bool): seq<Input> {
    seq(|frames|, i requires 0 <= i < |frames| => Input(frames[i], served(i)))
  }

  const PREFACE: seq<byte> := Ascii("PRI * HTTP/2.0\r\n\r\nSM\r\n\r\n")

  /** The 24 bytes of RFC 7540, section 3.5. */
  lemma PrefaceBytes()
    ensures PREFACE == [0x50, 0x52, 0x49, 0x20, 0x2a, 0x20, 0x48, 0x54, 0x54, 0x50, 0x2f, 0x32, 0x2e, 0x30,
                        0x0d, 0x0a, 0x0d, 0x0a, 0x53, 0x4d, 0x0d, 0x0a, 0x0d, 0x0a]
  {
  }

  /** The part of a receive buffer that is cut into frames. */
  function BehindPreface(buffer: seq<byte>, bytesRead: nat): seq<byte>
    requires bytesRead <= |buffer|
  {
    if !(PREFACE <= buffer) then buffer[..bytesRead]
    else if bytesRead < |PREFACE| then []
    else buffer[|PREFACE|..bytesRead]
  }

  /** What a read brings is what is behind the preface, up to its last byte, whatever the buffer holds
      there; without a preface it is all that was read. */
  lemma WhatIsRead(b: seq<byte>, stale: seq<byte>)
    ensures BehindPreface(PREFACE + b + stale, 24 + |b|) == b
    ensures !(PREFACE <= b + stale) ==> BehindPreface(b + stale, |b|) == b
  {
    hide PREFACE;
    PrefaceLength();
    assert PREFACE <= PREFACE + b + stale;
  }

  lemma PrefaceLength()
    ensures |PREFACE| == 24
  {
  }

  // ---------------------------------------------------------------- the objects

  class Stream {
    var id: uint32
    var state: StreamState
    var data: seq<byte>
    var fragments: seq<byte>
    var headers: seq<Header>
    var endHeader: bool
    var endStream: bool

    ghost function View(): StreamValue
      reads this
    {
      StreamValue(id, state, data, fragments, headers, endHeader, endStream)
    }

    constructor (id: uint32)
      ensures View() == NewStream(id)
    {
      this.id, state := id, IDLE;
      data, fragments, headers, endHeader, endStream := [], [], [], false, false;
    }
  }

  class Client {
    var streams: map<uint32, Stream>
    var settings: SettingsCodec.Values
    var errorCode: int
    var closed: bool
    ghost var requests: seq<Request>
    const decoder: Decoder

    /** No two stream numbers share an object. */
    ghost predicate Valid()
      reads this, streams.Values, decoder.table
    {
      && decoder.table.Valid()
      && forall j, k :: j in streams && k in streams && j != k ==> streams[j] != streams[k]
    }

    ghost function View(): Connection
      reads this, streams.Values, decoder.table
    {
      Connection(map sid | sid in streams :: streams[sid].View(), decoder.table.View(), settings,
                 errorCode, closed, requests)
    }

    constructor ()
      ensures Valid() && View() == NEW_CONNECTION
      ensures fresh(decoder) && fresh(decoder.table)
    {
      streams, settings, errorCode, closed, requests := map[], SettingsCodec.DEFAULTS, 0, false, [];
      decoder := new Decoder();
    }

    /** Only the object of stream `sid` differs from what `c` says. */
    ghost predicate DiffersAt(c: Connection, sid: uint32)
      reads this, streams.Values
    {
      && c.streams.Keys == streams.Keys
      && forall k :: k in streams && k != sid ==> streams[k].View() == c.streams[k]
    }

    /** Touching one stream object changes one entry of the map. */
    lemma OnlyOneChanged(c: Connection, sid: uint32)
      requires sid in streams && DiffersAt(c, sid)
      ensures View().streams == c.streams[sid := streams[sid].View()]
    {
    }

    /** What decoding leaves in the stream object. */
    method Store(sid: uint32, outcome: Outcome, delivered: seq<Header>)
      requires Valid() && sid in streams
      modifies streams[sid]
      ensures Valid()
      ensures var c := old(View());
              View() == c.(streams := c.streams[sid := Decoded(c.streams[sid], outcome, delivered)])
    {
      hide TotalSize;
      ghost var c := View();
      var stream := streams[sid];
      stream.headers := stream.headers + delivered;
      if outcome != Threw {
        stream.state := HALF_CLOSED_REMOTE;
        stream.endHeader := true;
        stream.fragments := [];
      }
      assert stream.View() == Decoded(c.streams[sid], outcome, delivered);
      assert DiffersAt(c, sid);
      OnlyOneChanged(c, sid);
    }

    method DecodeFragments(sid: uint32) returns (outcome: Outcome, delivered: seq<Header>)
      requires Valid() && sid in streams
      modifies decoder.table
      ensures Valid()
      ensures var c := old(View());
              var r := DecodeBlock(c.table, c.streams[sid].fragments);
              r.outcome == outcome && r.headers == delivered && View() == c.(table := r.table)
    {
      hide DecodeBlock, TotalSize;
      outcome, delivered := decoder.DecodeLowmem(streams[sid].fragments);
    }

    ghost method HandOn(sid: uint32)
      requires Valid() && sid in streams
      modifies this`requests
      ensures Valid()
      ensures var c := old(View());
              View() == c.(requests := c.requests + [Request(sid, c.streams[sid].headers)])
    {
      hide TotalSize;
      requests := requests + [Request(sid, streams[sid].headers)];
    }

    method ProcessEndHeader(sid: uint32, served: bool) returns (undefined: bool, ok: bool)
      requires Valid() && sid in streams
      modifies this`requests, streams[sid], decoder.table
      ensures Valid()
      ensures match EndHeader(old(View()), sid, served)
              case Undefined => undefined
              case Handled(c, b) => !undefined && View() == c && ok == b
    {
      hide DecodeBlock, HasPath, TotalSize, Decoded;
      ghost var c := View();
      var outcome, delivered := DecodeFragments(sid);
      if outcome == Outcome.Undefined {
        return true, false;
      }
      Store(sid, outcome, delivered);
      undefined, ok := false, false;
      if outcome == Threw {
        assert c.requests + [] == c.requests;
        return;
      }
      HandOn(sid);
      assert streams[sid].headers == View().streams[sid].headers;
      ok := Respond(streams[sid].headers, served);
    }

    /** Which responses are attempted, going by a header `:method`. */
    method Respond(headers: seq<Header>, served: bool) returns (ok: bool)
      requires decoder.table.Valid()
      ensures ok == (HasPath(headers) && served)
    {
      hide FirstNamed, StaticTable, Indexed, HasPath;
      MethodIsGet(decoder.table.View());
      var i := decoder.table.FindName(Ascii(":method"));
      if i == 0 {
        return false;
      }
      var found := decoder.table.At(i);
      if found.value.value != Ascii("GET") {
        return true;
      }
      if !HasPath(headers) {
        return false;
      }
      ok := served;
    }

    /** Every object in the map was there before or is new. */
    twostate predicate NoOthers()
      reads this
    {
      forall sid :: sid in streams ==> streams[sid] in old(streams.Values) || fresh(streams[sid])
    }

    /** Makes sure that there is a stream `sid`. */
    method FindOrCreate(sid: uint32)
      requires Valid()
      modifies this
      ensures Valid() && NoOthers()
      ensures sid in streams
      ensures View() == WithStream(old(View()), sid)
    {
      hide TotalSize;
      if sid !in streams {
        ghost var c := View();
        var created := new Stream(sid);
        streams := streams[sid := created];
        assert View().streams == c.streams[sid := NewStream(sid)];
      }
    }

    /** The stream is closed, and its object is no longer reachable from the connection. */
    method Drop(sid: uint32)
      requires Valid() && sid in streams
      modifies this, streams[sid]
      ensures Valid() && streams == old(streams) - {sid}
      ensures View() == Without(old(View()), sid)
    {
      hide TotalSize;
      ghost var c := View();
      streams[sid].state := CLOSED;
      streams := streams - {sid};
      assert View().streams == c.streams - {sid};
    }

    method HandleHeaders(f: Frame, served: bool) returns (undefined: bool, ok: bool)
      requires Valid()
      modifies this, streams.Values, decoder.table
      ensures Valid() && NoOthers()
      ensures match Headers(old(View()), f, served)
              case Undefined => undefined
              case Handled(c, b) => !undefined && View() == c && ok == b
    {
      hide Frame.Has, TotalSize, EndHeader, WithStream;
      FindOrCreate(f.sid);
      ghost var c := View();
      var stream := streams[f.sid];
      stream.state := OPEN;
      stream.endHeader := f.Has(END_HEADERS);
      stream.endStream := f.Has(END_STREAM);
      stream.fragments := stream.fragments + f.payload;
      assert DiffersAt(c, f.sid);
      OnlyOneChanged(c, f.sid);
      assert View() == Opened(old(View()), f);
      undefined, ok := FinishHeaders(f, served);
    }

    /** The second half of the HEADERS handler. */
    method FinishHeaders(f: Frame, served: bool) returns (undefined: bool, ok: bool)
      requires Valid() && f.sid in streams
      modifies this, streams.Values, decoder.table
      ensures Valid() && (streams == old(streams) || streams == old(streams) - {f.sid})
      ensures match AfterOpened(old(View()), f, served)
              case Undefined => undefined
              case Handled(c, b) => !undefined && View() == c && ok == b
    {
      hide Frame.Has, TotalSize, EndHeader, Without;
      undefined, ok := false, true;
      if f.Has(END_HEADERS) {
        var answered;
        undefined, answered := ProcessEndHeader(f.sid, served);
        ok := ok || answered;
        if undefined {
          return;
        }
      }
      if f.Has(END_STREAM) {
        Drop(f.sid);
      }
    }

    method AppendFragment(f: Frame)
      requires Valid() && f.sid in streams
      modifies streams[f.sid]
      ensures Valid() && View() == Continued(old(View()), f)
      ensures streams[f.sid].endHeader == f.Has(END_HEADERS)
    {
      hide Frame.Has, TotalSize;
      ghost var c := View();
      var stream := streams[f.sid];
      stream.fragments := stream.fragments + f.payload;
      stream.endHeader := f.Has(END_HEADERS);
      stream.endStream := f.Has(END_STREAM);
      assert DiffersAt(c, f.sid);
      OnlyOneChanged(c, f.sid);
    }

    method HandleContinuation(f: Frame, served: bool) returns (undefined: bool, ok: bool)
      requires Valid()
      modifies this`requests, streams.Values, decoder.table
      ensures Valid()
      ensures match Continuation(old(View()), f, served)
              case Undefined => undefined
              case Handled(c, b) => !undefined && View() == c && ok == b
    {
      hide Frame.Has, TotalSize, EndHeader, Continued;
      if f.sid !in streams {
        return false, false;
      }
      var stream := streams[f.sid];
      if stream.state != OPEN && stream.state != HALF_CLOSED_REMOTE {
        return false, false;
      }
      AppendFragment(f);
      if stream.endHeader {
        undefined, ok := ProcessEndHeader(f.sid, served);
        return;
      }
      undefined, ok := false, true;
    }

    method HandleData(f: Frame) returns (ok: bool)
      requires Valid()
      modifies streams.Values
      ensures Valid()
      ensures Handled(View(), ok) == Data(old(View()), f)
    {
      hide Frame.Has, TotalSize;
      if f.sid !in streams {
        return false;
      }
      ghost var c := View();
      var stream := streams[f.sid];
      if stream.state != OPEN {
        return false;
      }
      stream.data := stream.data + f.payload;
      stream.endStream := f.Has(END_STREAM);
      stream.endHeader := f.Has(END_HEADERS);
      assert DiffersAt(c, f.sid);
      OnlyOneChanged(c, f.sid);
      ok := true;
    }

    method HandleReset(f: Frame) returns (ok: bool)
      requires Valid()
      modifies this, streams.Values
      ensures Valid() && NoOthers()
      ensures Handled(View(), ok) == Reset(old(View()), f)
    {
      hide TotalSize;
      if f.sid !in streams {
        return false;
      }
      if streams[f.sid].state == CLOSED {
        return false;
      }
      Drop(f.sid);
      ok := true;
    }

    /** `Client::ackSettings` up to the acknowledgement: the payload is decoded into new settings. */
    method AckSettings(payload: seq<byte>) returns (ok: bool)
      requires Valid()
      modifies this`settings
      ensures Valid()
      ensures ok == SettingsCodec.DecodeSettings(SettingsCodec.DEFAULTS, payload).0.NO_ERROR?
      ensures var c := old(View());
              View() == c.(settings := SettingsCodec.Acknowledged(c.settings, payload))
    {
      hide TotalSize, SettingsCodec.DecodeSettings;
      ghost var c := View();
      var error, received := DecodeNew(payload);
      if error != SettingsCodec.NO_ERROR {
        return false;
      }
      settings := received;
      assert View() == c.(settings := received);
      ok := true;
    }

    method HandleSettings(f: Frame) returns (ok: bool)
      requires Valid()
      modifies this`settings
      ensures Valid()
      ensures Handled(View(), ok) == ApplySettings(old(View()), f)
    {
      hide Frame.Has, TotalSize, SettingsCodec.DecodeSettings, SettingsCodec.Acknowledged;
      if f.sid != 0 {
        return false;
      }
      if f.Has(ACK) {
        return true;
      }
      ok := AckSettings(f.payload);
    }

    method HandleGoAway()
      requires Valid()
      modifies this
      ensures Valid() && NoOthers()
      ensures View() == GoAway(old(View()))
    {
      streams := map[];
      errorCode := 0;
      closed := true;
      assert View().streams == map[];
    }

    method HandleFrame(f: Frame, served: bool) returns (undefined: bool, ok: bool)
      requires Valid()
      modifies this, streams.Values, decoder.table
      ensures Valid() && NoOthers()
      ensures match Handle(old(View()), f, served)
              case Undefined => undefined
              case Handled(c, b) => !undefined && View() == c && ok == b
    {
      hide TotalSize, Headers, Continuation, Data, Reset;
      undefined := false;
      if f.kind == DATA_FRAME {
        ok := HandleData(f);
      } else if f.kind == HEADERS_FRAME {
        undefined, ok := HandleHeaders(f, served);
      } else if f.kind == RST_STREAM_FRAME {
        ok := HandleReset(f);
      } else if f.kind == SETTINGS_FRAME {
        ok := HandleSettings(f);
      } else if f.kind == PING_FRAME {
        ok := f.sid == 0 && served;
      } else if f.kind == GOAWAY_FRAME {
        HandleGoAway();
        ok := true;
      } else if f.kind == CONTINUATION_FRAME {
        undefined, ok := HandleContinuation(f, served);
      } else {
        ok := f.kind == PUSH_PROMISE_FRAME || f.kind == WINDOW_UPDATE_FRAME;
      }
    }

    /** Cuts what was received into frames and handles them in turn, whatever the verdicts. Only
        the first `bytesRead` bytes of the buffer are new, but all of it is searched for the
        preface. */
    method DoRequest(buffer: seq<byte>, bytesRead: nat, served: nat -> bool) returns (undefined: bool)
      requires Valid() && bytesRead <= |buffer|
      modifies this, streams.Values, decoder.table
      ensures Valid() && NoOthers()
      ensures var segments := Segment(BehindPreface(buffer, bytesRead));
              if !segments.defined then undefined
              else match RunFrames(old(View()), Inputs(segments.frames, served))
                   case None => undefined
                   case Some(c) => !undefined && View() == c
    {
      hide TotalSize, Segment, Handle;
      var received := BehindPreface(buffer, bytesRead);
      var segments := ToFrames(received);
      if !segments.defined {
        return true;
      }
      var frames := segments.frames;
      ghost var inputs := Inputs(frames, served);
      var i := 0;
      while i < |frames|
        invariant 0 <= i <= |frames|
        invariant Valid() && NoOthers()
        invariant RunFrames(old(View()), inputs[..i]) == Some(View())
      {
        ghost var c := View();
        assert inputs[..i + 1][..i] == inputs[..i] && inputs[i] == Input(frames[i], served(i));
        var ok;
        undefined, ok := HandleFrame(frames[i], served(i));
        if undefined {
          RunStops(old(View()), inputs, i);
          return;
        }
        assert RunFrames(old(View()), inputs[..i + 1]) == Some(View());
        i := i + 1;
      }
      assert inputs[..i] == inputs;
      undefined := false;
    }
  }

  method DecodeNew(payload: seq<byte>) returns (error: SettingsCodec.Error, v: SettingsCodec.Values)
    ensures (error, v) == SettingsCodec.DecodeSettings(SettingsCodec.DEFAULTS, payload)
  {
    hide SettingsCodec.DecodeSettings;
    var received := new SettingsCodec.Settings();
    error := received.Decode(payload);
    v := received.View();
  }

  lemma {:induction false} RunStops(c: Connection, inputs: seq<Input>, i: nat)
    requires i < |inputs| && RunFrames(c, inputs[..i + 1]).None?
    ensures RunFrames(c, inputs).None?
  {
    if i + 1 < |inputs| {
      var init := inputs[..|inputs| - 1];
      assert init[..i + 1] == inputs[..i + 1];
      RunStops(c, init, i);
    } else {
      assert inputs[..i + 1] == inputs;
    }
  }

  lemma MethodEntries()
    ensures |StaticTable()[1].name| == 10
    ensures StaticTable()[2] == Text(":method", "GET")
  {
  }

  /** The lookup of `:method` is made in the decoder's table, not among the headers received, and
      finds static entry 2 whatever the table holds. */
  lemma MethodIsGet(t: Table)
    ensures FirstNamed(Indexed(t), Ascii(":method")) == 2
    ensures Lookup(t, 2) == Some(Text(":method", "GET"))
  {
    hide StaticTable, FirstNamed;
    MethodEntries();
    var all := Indexed(t);
    assert all[0] == StaticTable()[1] && all[1] == StaticTable()[2];
    assert all[1].name == Ascii(":method");
  }
}
