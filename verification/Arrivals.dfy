/** When the header lists that a peer encodes reach the code that responds as they were sent. */
module Arrivals {
  import opened Bytes
  import opened Frames
  import opened Huffman
  import opened Integers
  import opened HeaderTable
  import opened HpackEncoder
  import opened HpackDecoder
  import opened HpackBlocks
  import opened Representations
  import opened Streams
  import opened StreamRuns
  import opened Reassembly

  /** A block of representations that mean the header list `hs`, written by any encoder, and cut and
      interleaved in any way that is not lost. */
  ghost predicate Sends(c: Connection, inputs: seq<Input>, sid: uint32, block: seq<Representation>, hs: seq<Header>) {
    && Transmits(c, inputs, sid) && !IsLost(inputs)
    && Fragments(inputs, sid) == BlockBytes(block)
    && IsMeant(c.table, block, hs)
  }

  /** What an encoder that knows the decoder's table means by a block. */
  ghost predicate IsMeant(t: Table, block: seq<Representation>, hs: seq<Header>) {
    && (forall r <- block :: Fits(r))
    && Meanings(t, block).outcome == Accepted && Meanings(t, block).headers == hs
  }

  /** The list was handed on as it was meant, behind what the stream had received before, and
      moved the decoder's table as it should. */
  ghost predicate Intact(c: Connection, inputs: seq<Input>, sid: uint32, block: seq<Representation>, hs: seq<Header>) {
    && RunFrames(c, inputs).Some?
    && RunFrames(c, inputs).value.table == Meanings(c.table, block).table
    && RunFrames(c, inputs).value.requests == c.requests + [Request(sid, HeadersOf(c, sid) + hs)]
  }

  /** Bytes that decode to nothing and leave the table as it was. */
  ghost predicate IsSilent(t: Table, bytes: seq<byte>) {
    DecodeBlock(t, bytes) == HpackDecoder.Result(Accepted, [], t)
  }

  // ---------------------------------------------------------------- silence is sufficient

  lemma SilentPrefix(t: Table, before: seq<byte>, block: seq<Representation>)
    requires IsSilent(t, before) && forall r <- block :: Fits(r)
    ensures DecodeBlock(t, before + BlockBytes(block)) == Meanings(t, block)
  {
    hide DecodeBlock, BlockBytes, Meanings, Fits;
    BlockDecodes(t, block);
    DecodeConcat(t, before, BlockBytes(block));
    assert [] + Meanings(t, block).headers == Meanings(t, block).headers;
  }

  /** The server's own encoder is such a peer. */
  lemma EncoderMeans(t: Table, sensitive: set<seq<byte>>, hs: seq<Header>) returns (block: seq<Representation>)
    requires AllShort(hs)
    ensures IsMeant(t, block, hs) && BlockBytes(block) == EncodeBlock(sensitive, hs)
    ensures Meanings(t, block).table == TableAfterAll(sensitive, t, hs)
  {
    hide DecodeBlock, BlockBytes, Meanings, Fits, EncodeBlock, AllShort, TableAfterAll, IsEncodingOf;
    block := BlockIsRepresented(sensitive, hs);
    BlockRoundTrip(sensitive, t, hs);
    BlockDecodes(t, block);
  }

  /** Headers arrive on a stream whose leftover fragments are silent; if the peer ended the stream
      with them it is gone afterwards, else it is half closed. */
  lemma HeadersArrive(c: Connection, inputs: seq<Input>, sid: uint32, block: seq<Representation>, hs: seq<Header>)
    requires Sends(c, inputs, sid, block, hs) && IsSilent(c.table, FragmentsOf(c, sid))
    ensures Intact(c, inputs, sid, block, hs)
    ensures var c' := RunFrames(c, inputs).value;
            && (sid in c'.streams <==> !EndsStream(inputs))
            && (sid in c'.streams ==>
                  && c'.streams[sid].state == HALF_CLOSED_REMOTE
                  && c'.streams[sid].headers == HeadersOf(c, sid) + hs
                  && c'.streams[sid].fragments == [])
  {
    hide Transmits, RunFrames, DecodeBlock, Fragments, BlockBytes, Meanings, IsSilent;
    BlockArrives(c, inputs, sid);
    SilentPrefix(c.table, FragmentsOf(c, sid), block);
  }

  lemma NothingIsSilent(t: Table)
    ensures IsSilent(t, [])
  {
  }

  // ---------------------------------------------------------------- and necessary

  /** A header that is sent as one byte. */
  const ROOT := Text(":path", "/")

  lemma RootEntries()
    ensures PSEUDO_HEADERS[4] == ROOT
    ensures |PSEUDO_HEADERS[1].name| == 10
    ensures |PSEUDO_HEADERS[2].name| == 7 == |PSEUDO_HEADERS[3].name|
    ensures |ROOT.name| == 5 && ROOT.value == [0x2f]
  {
  }

  lemma RootIndex()
    ensures FirstEqual(Indexed(EMPTY_TABLE), ROOT) == 4
    ensures Lookup(EMPTY_TABLE, 4) == Some(ROOT)
  {
    hide FirstEqual;
    RootEntries();
    var all := Indexed(EMPTY_TABLE);
    assert all[0] == PSEUDO_HEADERS[1] && all[1] == PSEUDO_HEADERS[2];
    assert all[2] == PSEUDO_HEADERS[3] && all[3] == PSEUDO_HEADERS[4];
  }

  lemma RootIsOneByte()
    ensures EncodeHeader({}, ROOT) == [0x84]
    ensures !IsAdded({}, ROOT)
  {
    hide FirstEqual, FirstNamed, Indexed, Lookup, EncodeString;
    Pow2Literals();
    RootIndex();
  }

  lemma RootBlock(n: nat) returns (hs: seq<Header>)
    requires n <= 2
    ensures hs == seq(n, _ => ROOT) && AllShort(hs)
    ensures EncodeBlock({}, hs) == seq(n, _ => 0x84)
    ensures forall t :: TableAfterAll({}, t, hs) == t
  {
    hide EncodeHeader, IsAdded;
    RootIsOneByte();
    RootEntries();
    if n == 0 {
      hs := [];
    } else {
      var init := RootBlock(n - 1);
      hs := init + [ROOT];
      assert seq(n, _ => 0x84) == seq(n - 1, _ => 0x84) + [0x84];
    }
  }

  lemma SlashLength()
    ensures |Code(0x2f)| == 6
  {
  }

  lemma OneCodeword(c: byte)
    ensures EncodeBits([c]) == Code(c)
  {
    hide Code;
    var text: seq<byte> := [c];
    assert text[1..] == [];
    assert EncodeBits(text) == Code(c) + [];
  }

  lemma PackNone()
    ensures Pack([]) == []
  {
  }

  lemma PackEight(bits: seq<bool>)
    requires |bits| == 8
    ensures |Pack(bits)| == 1 && Pack(bits)[0] == Value(bits)
  {
    hide Value, Pow2;
    Pow2Literals();
    PackNone();
    assert bits[..0] == [] && bits[0..] == bits;
    assert |bits| - 8 == 0;
  }

  lemma EndsInOne(bits: seq<bool>)
    ensures Value(bits + Ones(2)) % 2 == 1
  {
    hide Value;
    ValueSnoc(bits + Ones(1), true);
    assert bits + Ones(2) == bits + Ones(1) + [true];
  }

  lemma SlashCoded()
    ensures |HuffmanEncode([0x2f])| == 1 && HuffmanEncode([0x2f])[0] % 2 == 1
  {
    hide Code, EncodeBits, Pack, Value;
    SlashLength();
    OneCodeword(0x2f);
    PackEight(Code(0x2f) + Ones(2));
    EndsInOne(Code(0x2f));
  }

  /** A string that ends in this byte is not the value of that header. */
  lemma TextEndsOtherwise(b: seq<byte>)
    requires |b| > 0 && b[|b| - 1] == 0x84
    requires DecodeString(b).Read? && DecodeString(b).used == |b|
    ensures DecodeString(b).text != [0x2f]
  {
    hide DecodeInteger, HuffmanDecode, HuffmanEncode;
    var i := DecodeInteger(b, 7);
    var body := b[i.used..];
    SlashCoded();
    HuffmanBijection(body, [0x2f]);
    assert |body| > 0 ==> body[|body| - 1] == 0x84;
    assert b[i.used..i.used + i.value] == body;
  }

  lemma FieldEndsOtherwise(t: Table, b: seq<byte>, width: nat)
    requires 4 <= width <= 7 && |b| > 0 && b[|b| - 1] == 0x84
    requires DecodeField(t, b, width).Field? && DecodeField(t, b, width).length == |b|
    ensures DecodeField(t, b, width).h != ROOT
  {
    hide DecodeInteger, DecodeString, Lookup;
    RootEntries();
    var i := DecodeInteger(b, width);
    var m := i.used + DecodeName(t, i.value, b[i.used..]).used;
    TextEndsOtherwise(b[m..]);
  }

  /** A representation of two bytes or more that ends in this byte is not of that header. */
  lemma StepEndsOtherwise(t: Table, b: seq<byte>)
    requires |b| >= 2 && b[|b| - 1] == 0x84
    requires DecodeOne(t, b).Advance? && DecodeOne(t, b).used == |b|
    ensures DecodeOne(t, b).emitted != [ROOT]
  {
    hide DecodeInteger, DecodeField, Lookup, Insert, Resize;
    StepDispatch(t, b);
    if b[0] >= 0x80 {
      IntegerMeaning(b, 7);
    } else if !(0x20 <= b[0] < 0x40) {
      FieldEndsOtherwise(t, b, if b[0] >= 0x40 then 6 else 4);
    }
  }

  /** Behind a cut-off representation the header does not come through. */
  lemma {:induction false} RootSwallowed(t: Table, before: seq<byte>)
    requires DecodeBlock(t, before).outcome == Rejected && DecodeBlock(t, before).headers == []
    ensures DecodeBlock(t, before + [0x84]).headers != [ROOT]
    decreases |before|
  {
    hide DecodeOne;
    var b := before + [0x84];
    match DecodeOne(t, before)
    case Advance(used, emitted, t') =>
      StepMakesProgress(t, before);
      assert b[..used] == before[..used];
      StepLocal(t, before, b);
      assert b[used..] == before[used..] + [0x84];
      RootSwallowed(t', before[used..]);
      assert emitted == [];
      assert [] + DecodeBlock(t', b[used..]).headers == DecodeBlock(t', b[used..]).headers;
    case Stop(_) =>
      FirstSwallows(t, before);
  }

  lemma FirstSwallows(t: Table, before: seq<byte>)
    requires |before| > 0 && DecodeOne(t, before).Stop?
    ensures DecodeBlock(t, before + [0x84]).headers != [ROOT]
  {
    hide DecodeOne;
    var b := before + [0x84];
    if DecodeOne(t, b).Advance? {
      var s := DecodeOne(t, b);
      StepMakesProgress(t, b);
      if s.used <= |before| {
        assert before[..s.used] == b[..s.used];
        StepLocal(t, b, before);
      }
      assert s.used == |b|;
      StepEndsOtherwise(t, b);
      DecodeSingle(t, b);
    }
  }

  function OneFrame(sid: uint32, block: seq<byte>): seq<Input> {
    [Input(NewFrame(HEADERS_FRAME, END_HEADERS, sid, block), true)]
  }

  lemma OneFrameTransmits(c: Connection, sid: uint32, block: seq<byte>)
    ensures Transmits(c, OneFrame(sid, block), sid) && !IsLost(OneFrame(sid, block))
    ensures !EndsStream(OneFrame(sid, block))
    ensures Fragments(OneFrame(sid, block), sid) == block
  {
    var inputs := OneFrame(sid, block);
    assert inputs[..0] == [];
    assert [] + block == block;
  }

  /** Leftover fragments that are not silent spoil some header list: even the empty one, or, if
      they only stop in the middle of a representation, a list of one header. */
  lemma Spoils(c: Connection, sid: uint32)
    returns (inputs: seq<Input>, block: seq<Representation>, hs: seq<Header>)
    requires !IsSilent(c.table, FragmentsOf(c, sid))
    ensures Sends(c, inputs, sid, block, hs) && !Intact(c, inputs, sid, block, hs)
  {
    hide Transmits, RunFrames, DecodeBlock, Fragments, TableAfterAll, EncodeBlock, AllShort, IsLost, EndsStream;
    hide IsMeant, Meanings, BlockBytes;
    var before := FragmentsOf(c, sid);
    var r := DecodeBlock(c.table, before);
    var swallowed := r.outcome == Rejected && r.headers == [] && r.table == c.table;
    hs := RootBlock(if swallowed then 1 else 0);
    block := EncoderMeans(c.table, {}, hs);
    var bytes := BlockBytes(block);
    inputs := OneFrame(sid, bytes);
    OneFrameTransmits(c, sid, bytes);
    BlockArrives(c, inputs, sid);
    if swallowed {
      assert hs == [hs[0]] == [ROOT] && bytes == [bytes[0]] == [0x84];
      RootSwallowed(c.table, before);
    } else {
      assert bytes == [] && before + bytes == before;
    }
    SameTail(c.requests, Request(sid, HeadersOf(c, sid) + DecodeBlock(c.table, before + bytes).headers),
             Request(sid, HeadersOf(c, sid) + hs));
    SameTail2(HeadersOf(c, sid), DecodeBlock(c.table, before + bytes).headers, hs);
  }

  lemma SameTail<T>(a: seq<T>, x: T, y: T)
    ensures a + [x] == a + [y] <==> x == y
    ensures a + [] != a + [y]
  {
    assert (a + [x])[|a|] == x && (a + [y])[|a|] == y;
    assert |a + []| != |a + [y]|;
  }

  lemma SameTail2<T>(a: seq<T>, x: seq<T>, y: seq<T>)
    ensures a + x == a + y <==> x == y
  {
    assert (a + x)[|a|..] == x && (a + y)[|a|..] == y;
  }

  /** Every header list sent on a stream arrives intact, however it is cut and interleaved, exactly
      when the fragments left over from before are silent. */
  lemma ArriveExactly(c: Connection, sid: uint32)
    ensures IsSilent(c.table, FragmentsOf(c, sid)) <==>
            forall inputs, block, hs ::
              Sends(c, inputs, sid, block, hs) ==> Intact(c, inputs, sid, block, hs)
  {
    hide IsSilent, Sends, Intact;
    if IsSilent(c.table, FragmentsOf(c, sid)) {
      forall inputs, block, hs | Sends(c, inputs, sid, block, hs)
        ensures Intact(c, inputs, sid, block, hs)
      {
        HeadersArrive(c, inputs, sid, block, hs);
      }
    } else {
      var inputs, block, hs := Spoils(c, sid);
    }
  }

  /** The same over whole runs, in terms of the frames sent: a peer that leaves nothing behind on
      the stream can rely on it. */
  lemma ArriveAfterRun(history: seq<Input>, sid: uint32)
    requires RunFrames(NEW_CONNECTION, history).Some?
    ensures var c := RunFrames(NEW_CONNECTION, history).value;
            IsSilent(c.table, Leftover(history, sid)) <==>
            forall inputs, block, hs ::
              Sends(c, inputs, sid, block, hs) ==> Intact(c, inputs, sid, block, hs)
    ensures Leftover(history, sid) == [] ==>
            IsSilent(RunFrames(NEW_CONNECTION, history).value.table, Leftover(history, sid))
  {
    hide IsSilent, Sends, Intact, RunFrames, Leftover, FragmentsOf;
    LeftBehind(history, sid);
    ArriveExactly(RunFrames(NEW_CONNECTION, history).value, sid);
    NothingIsSilent(RunFrames(NEW_CONNECTION, history).value.table);
  }

  // ---------------------------------------------------------------- from the wire

  /** From the bytes on the wire, padding and priority fields included, to the code that responds:
      if every fragment survives, the run is that of the frames the peer meant. */
  lemma BytesArrive(c: Connection, ws: seq<Wire>, served: nat -> bool, sid: uint32,
                    block: seq<Representation>, hs: seq<Header>)
    requires (forall w <- ws :: LegalWire(w)) && forall w <- ws :: Survives(w)
    requires Sends(c, Inputs(AllMeant(ws), served), sid, block, hs)
    requires IsSilent(c.table, FragmentsOf(c, sid))
    ensures var segments := Segment(AllWireBytes(ws));
            && segments.defined
            && RunFrames(c, Inputs(segments.frames, served)) == RunFrames(c, Inputs(AllMeant(ws), served))
            && Intact(c, Inputs(segments.frames, served), sid, block, hs)
  {
    hide Sends, IsSilent, RunFrames, Segment, AllWireBytes, LegalWire, Survives, TableAfterAll;
    SegmentWires(ws);
    FragmentsSurvive(ws);
    SameRun(c, Inputs(AllKept(ws), served), Inputs(AllMeant(ws), served));
    HeadersArrive(c, Inputs(AllMeant(ws), served), sid, block, hs);
  }

  /** A whole header list in one HEADERS frame arrives, on a stream without leftover fragments,
      exactly when its block survives the frame's padding and priority, or has nothing to say. */
  lemma OneFrameArrives(c: Connection, w: Wire, served: nat -> bool, block: seq<Representation>, hs: seq<Header>)
    requires LegalWire(w) && w.kind == HEADERS_FRAME && Meant(w).Has(END_HEADERS)
    requires IsMeant(c.table, block, hs) && w.fragment == BlockBytes(block)
    requires IsSilent(c.table, FragmentsOf(c, w.sid))
    ensures Segment(AllWireBytes([w])).defined
    ensures Intact(c, Inputs(Segment(AllWireBytes([w])).frames, served), w.sid, block, hs) <==>
            Survives(w) || (hs == [] && Meanings(c.table, block).table == c.table)
  {
    hide IsSilent, RunFrames, Segment, AllWireBytes, LegalWire, IsMeant, Meanings, BlockBytes;
    hide Frame.Has, DecodeBlock, KeptOf, Survives;
    SegmentWires([w]);
    KeptFields(w);
    assert AllKept([w]) == [KeptOf(w)] && AllMeant([w]) == [Meant(w)];
    SingleFrame(c, Meant(w), served);
    if Survives(w) {
      BytesArrive(c, [w], served, w.sid, block, hs);
    } else {
      SingleFrame(c, KeptOf(w), served);
      NothingArrives(c, Inputs(AllKept([w]), served), w.sid);
      SameTail(c.requests, Request(w.sid, HeadersOf(c, w.sid) + []), Request(w.sid, HeadersOf(c, w.sid) + hs));
      SameTail2(HeadersOf(c, w.sid), [], hs);
    }
  }

  lemma SingleFrame(c: Connection, f: Frame, served: nat -> bool)
    requires f.kind == HEADERS_FRAME && f.Has(END_HEADERS)
    ensures Transmits(c, Inputs([f], served), f.sid) && !IsLost(Inputs([f], served))
    ensures Fragments(Inputs([f], served), f.sid) == f.payload
  {
    var inputs := Inputs([f], served);
    assert inputs[..0] == [];
    assert [] + f.payload == f.payload;
  }

  /** An empty block hands on what the stream had received before, and nothing more. */
  lemma NothingArrives(c: Connection, inputs: seq<Input>, sid: uint32)
    requires Transmits(c, inputs, sid) && !IsLost(inputs) && Fragments(inputs, sid) == []
    requires IsSilent(c.table, FragmentsOf(c, sid))
    ensures RunFrames(c, inputs).Some?
    ensures RunFrames(c, inputs).value.requests == c.requests + [Request(sid, HeadersOf(c, sid) + [])]
    ensures RunFrames(c, inputs).value.table == c.table
  {
    hide Transmits, RunFrames, DecodeBlock, Fragments;
    BlockArrives(c, inputs, sid);
    assert FragmentsOf(c, sid) + [] == FragmentsOf(c, sid);
  }

  /** Ordinary traffic that does not arrive: a request of one byte with priority fields is handed
      on as a request without headers. */
  lemma ShortBlockRun(served: nat -> bool)
    ensures var frames := Segment(AllWireBytes([SHORT_BLOCK])).frames;
            && RunFrames(NEW_CONNECTION, Inputs(frames, served)).Some?
            && RunFrames(NEW_CONNECTION, Inputs(frames, served)).value.requests == [Request(1, [])]
            && DecodeBlock(NEW_CONNECTION.table, SHORT_BLOCK.fragment).headers == [ROOT]
  {
    hide RunFrames, Segment, AllWireBytes, LegalWire, DecodeBlock, EncodeBlock, TableAfterAll;
    hide AllShort, IsSilent, Transmits;
    var c := NEW_CONNECTION;
    ShortBlockLost();
    SegmentWires([SHORT_BLOCK]);
    SingleFrame(c, KeptOf(SHORT_BLOCK), served);
    NothingIsSilent(c.table);
    assert AllKept([SHORT_BLOCK]) == [KeptOf(SHORT_BLOCK)];
    NothingArrives(c, Inputs([KeptOf(SHORT_BLOCK)], served), 1);
    var one := RootBlock(1);
    assert one == [one[0]] == [ROOT];
    assert EncodeBlock({}, one) == [0x84];
    BlockRoundTrip({}, c.table, one);
  }

  // ---------------------------------------------------------------- a run that goes wrong

  /** A continuation after the end of a block is not refused: its bytes stay behind. */
  lemma StrayContinuation(c: Connection, input: Input, sid: uint32)
    requires sid in c.streams && c.streams[sid].state == HALF_CLOSED_REMOTE
    requires IsContinuation(input.frame, sid) && !input.frame.Has(END_HEADERS)
    ensures After(c, input).Some?
    ensures var c' := After(c, input).value;
            && c'.table == c.table && c'.requests == c.requests
            && sid in c'.streams && HeadersOf(c', sid) == HeadersOf(c, sid)
            && FragmentsOf(c', sid) == FragmentsOf(c, sid) + input.frame.payload
  {
    hide EndHeader, Frame.Has;
  }

  /** A complete block, a stray continuation, and another complete block. */
  const STRAY := Input(NewFrame(CONTINUATION_FRAME, 0, 1, [0x84]), true)

  function SpoiledRun(): seq<Input> {
    OneFrame(1, [0x84]) + [STRAY] + OneFrame(1, [0x84])
  }

  /** Each block and the continuation hold one header. The second request has three: that of the
      first block, which stays with the stream, that of the stray continuation, and its own.
      Without the continuation it would have two. */
  lemma SpoiledRunFails()
    ensures RunFrames(NEW_CONNECTION, SpoiledRun()).Some?
    ensures RunFrames(NEW_CONNECTION, SpoiledRun()).value.requests
         == [Request(1, [ROOT]), Request(1, [ROOT, ROOT, ROOT])]
  {
    hide Transmits, RunFrames, DecodeBlock, Fragments, TableAfterAll, EncodeBlock, AllShort, IsLost, EndsStream, After;
    var c0 := NEW_CONNECTION;
    var one := RootBlock(1);
    var two := RootBlock(2);
    assert one == [one[0]] == [ROOT] && two == [two[0], two[1]] == [ROOT, ROOT];
    assert EncodeBlock({}, one) == [0x84] && EncodeBlock({}, two) == [0x84, 0x84];
    BlockRoundTrip({}, c0.table, one);
    BlockRoundTrip({}, c0.table, two);
    OneFrameTransmits(c0, 1, [0x84]);
    BlockArrives(c0, OneFrame(1, [0x84]), 1);
    assert FragmentsOf(c0, 1) + [0x84] == [0x84] && HeadersOf(c0, 1) + one == one;
    var c1 := RunFrames(c0, OneFrame(1, [0x84])).value;
    assert c1.requests == [Request(1, one)];
    StrayContinuation(c1, STRAY, 1);
    var c2 := After(c1, STRAY).value;
    assert FragmentsOf(c2, 1) == [0x84];
    OneFrameTransmits(c2, 1, [0x84]);
    BlockArrives(c2, OneFrame(1, [0x84]), 1);
    assert FragmentsOf(c2, 1) + [0x84] == [0x84, 0x84];
    assert HeadersOf(c2, 1) + two == [ROOT, ROOT, ROOT];
    RunConcat(c0, OneFrame(1, [0x84]), [STRAY]);
    RunOne(c1, STRAY);
    RunConcat(c0, OneFrame(1, [0x84]) + [STRAY], OneFrame(1, [0x84]));
  }
}
