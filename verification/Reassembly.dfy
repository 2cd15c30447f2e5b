/** How header blocks arrive: in one HEADERS frame or in fragments, with other frames in between. */
module Reassembly {
  import opened Bytes
  import opened Frames
  import opened HpackDecoder
  import opened Streams
  import opened StreamRuns

  // ---------------------------------------------------------------- transmissions

  /** A frame that may come between the fragments of a block on stream `sid`: it completes no
      block, does not end the connection, and on `sid` itself is no part of the block. */
  predicate Between(c: Connection, f: Frame, sid: uint32) {
    && f.kind != GOAWAY_FRAME
    && Completes(c, f).None?
    && !IsFragment(f, sid)
    && (f.kind == RST_STREAM_FRAME ==> f.sid != sid)
  }

  predicate IsContinuation(f: Frame, sid: uint32) {
    f.kind == CONTINUATION_FRAME && f.sid == sid
  }

  /** The start of a block on `sid`: a HEADERS frame, continuations, and any frames in between;
      the block is not complete yet. */
  ghost predicate Unfinished(c: Connection, inputs: seq<Input>, sid: uint32) {
    |inputs| > 0 &&
    var init, f := inputs[..|inputs| - 1], inputs[|inputs| - 1].frame;
    && (f.sid == sid ==> !f.Has(END_HEADERS) || !IsFragment(f, sid))
    && if |init| == 0 then f.kind == HEADERS_FRAME && f.sid == sid
       else
         && Unfinished(c, init, sid) && RunFrames(c, init).Some?
         && (IsContinuation(f, sid) || Between(RunFrames(c, init).value, f, sid))
  }

  /** A whole block on `sid`, in one HEADERS frame or spread over continuations. */
  ghost predicate Transmits(c: Connection, inputs: seq<Input>, sid: uint32) {
    |inputs| > 0 &&
    var init, f := inputs[..|inputs| - 1], inputs[|inputs| - 1].frame;
    && f.sid == sid && f.Has(END_HEADERS)
    && if |init| == 0 then f.kind == HEADERS_FRAME
       else f.kind == CONTINUATION_FRAME && Unfinished(c, init, sid)
  }

  /** The block's HEADERS frame says that nothing else will come on the stream. */
  predicate EndsStream(inputs: seq<Input>) {
    |inputs| > 0 && inputs[0].frame.Has(END_STREAM)
  }

  // ---------------------------------------------------------------- blocks that are put together

  /** Stream `sid` is open, has received no headers since `c`, and holds `fragments`. */
  ghost predicate Collecting(c: Connection, c': Connection, sid: uint32, fragments: seq<byte>) {
    && sid in c'.streams
    && c'.table == c.table && c'.requests == c.requests
    && c'.streams[sid].state == OPEN
    && c'.streams[sid].headers == HeadersOf(c, sid)
    && c'.streams[sid].fragments == FragmentsOf(c, sid) + fragments
  }

  lemma StartsCollecting(c: Connection, input: Input, sid: uint32)
    requires input.frame.kind == HEADERS_FRAME && input.frame.sid == sid
    requires !input.frame.Has(END_HEADERS) && !input.frame.Has(END_STREAM)
    ensures After(c, input).Some? && Collecting(c, After(c, input).value, sid, input.frame.payload)
  {
    hide Frame.Has, EndHeader;
  }

  lemma KeepsCollecting(c: Connection, c1: Connection, input: Input, sid: uint32, fragments: seq<byte>)
    requires Collecting(c, c1, sid, fragments)
    requires var f := input.frame;
             Between(c1, f, sid) || (IsContinuation(f, sid) && !f.Has(END_HEADERS))
    ensures After(c1, input).Some?
    ensures Collecting(c, After(c1, input).value, sid,
                       fragments + if IsFragment(input.frame, sid) then input.frame.payload else [])
  {
    hide Frame.Has, EndHeader, FragmentsOf, HeadersOf;
    var more := if IsFragment(input.frame, sid) then input.frame.payload else [];
    ConcatAssociative(FragmentsOf(c, sid), fragments, more);
  }

  lemma {:induction false} Collects(c: Connection, inputs: seq<Input>, sid: uint32)
    requires Unfinished(c, inputs, sid) && !EndsStream(inputs)
    ensures RunFrames(c, inputs).Some?
    ensures Collecting(c, RunFrames(c, inputs).value, sid, Fragments(inputs, sid))
  {
    hide After, Collecting, Between, Frame.Has;
    var init, last := inputs[..|inputs| - 1], inputs[|inputs| - 1];
    if |init| == 0 {
      StartsCollecting(c, last, sid);
      assert Fragments(inputs, sid) == last.frame.payload;
    } else {
      Collects(c, init, sid);
      KeepsCollecting(c, RunFrames(c, init).value, last, sid, Fragments(init, sid));
    }
  }

  /** What the connection is after a block on `sid` whose decoding ended in `r`. Unless decoding
      threw, all headers received on the stream were handed on for a response. */
  ghost predicate Arrived(c: Connection, c': Connection, sid: uint32, block: seq<byte>,
                          r: HpackDecoder.Result, ended: bool) {
    && c'.table == r.table
    && c'.requests == c.requests + (if r.outcome == Threw then [] else [Request(sid, HeadersOf(c, sid) + r.headers)])
    && (ended ==> sid !in c'.streams)
    && (!ended ==>
          && sid in c'.streams
          && c'.streams[sid].headers == HeadersOf(c, sid) + r.headers
          && c'.streams[sid].state == (if r.outcome == Threw then OPEN else HALF_CLOSED_REMOTE)
          && c'.streams[sid].fragments == if r.outcome == Threw then block else [])
  }

  ghost predicate ArrivedAfter(c: Connection, after: Option<Connection>, sid: uint32, block: seq<byte>, ended: bool) {
    var r := DecodeBlock(c.table, block);
    if r.outcome == Outcome.Undefined then after.None?
    else after.Some? && Arrived(c, after.value, sid, block, r, ended)
  }

  lemma LastFragment(c: Connection, c1: Connection, input: Input, sid: uint32, before: seq<byte>)
    requires Collecting(c, c1, sid, before)
    requires IsContinuation(input.frame, sid) && input.frame.Has(END_HEADERS)
    ensures ArrivedAfter(c, After(c1, input), sid, FragmentsOf(c, sid) + before + input.frame.payload, false)
  {
    hide DecodeBlock, Frame.Has, HasPath, FragmentsOf, HeadersOf;
  }

  lemma OnlyFragment(c: Connection, input: Input, sid: uint32)
    requires input.frame.kind == HEADERS_FRAME && input.frame.sid == sid && input.frame.Has(END_HEADERS)
    ensures ArrivedAfter(c, After(c, input), sid, FragmentsOf(c, sid) + input.frame.payload,
                         input.frame.Has(END_STREAM))
  {
    hide DecodeBlock, Frame.Has, HasPath;
  }

  /** The first of several frames says END_STREAM, and the stream is dropped with the block. */
  predicate IsLost(inputs: seq<Input>) {
    EndsStream(inputs) && !inputs[0].frame.Has(END_HEADERS)
  }

  /** However a block is cut into fragments and whatever comes in between, the stream, the shared
      decoder and the code that responds see it as if its bytes had come in one piece. */
  lemma BlockArrives(c: Connection, inputs: seq<Input>, sid: uint32)
    requires Transmits(c, inputs, sid) && !IsLost(inputs)
    ensures ArrivedAfter(c, RunFrames(c, inputs), sid, FragmentsOf(c, sid) + Fragments(inputs, sid),
                         EndsStream(inputs))
  {
    hide DecodeBlock, Frame.Has, HasPath, ArrivedAfter, Between;
    var init, last := inputs[..|inputs| - 1], inputs[|inputs| - 1];
    var before := Fragments(init, sid);
    ConcatAssociative(FragmentsOf(c, sid), before, last.frame.payload);
    if |init| > 0 {
      FirstFragment(c, init, sid);
      assert init[0] == inputs[0];
      Collects(c, init, sid);
      LastFragment(c, RunFrames(c, init).value, last, sid, before);
    } else {
      OnlyFragment(c, last, sid);
      assert [] + last.frame.payload == last.frame.payload;
    }
  }

  /** A block that is not complete began with a HEADERS frame without END_HEADERS. */
  lemma {:induction false} FirstFragment(c: Connection, inputs: seq<Input>, sid: uint32)
    requires Unfinished(c, inputs, sid)
    ensures inputs[0].frame.kind == HEADERS_FRAME && inputs[0].frame.sid == sid
    ensures !inputs[0].frame.Has(END_HEADERS)
  {
    hide Frame.Has, Between;
    if |inputs| > 1 {
      FirstFragment(c, inputs[..|inputs| - 1], sid);
    }
  }

  // ---------------------------------------------------------------- blocks that are lost

  ghost predicate Dropped(c: Connection, c': Connection, sid: uint32) {
    sid !in c'.streams && c'.table == c.table && c'.requests == c.requests
  }

  lemma StartsDropped(c: Connection, input: Input, sid: uint32)
    requires input.frame.kind == HEADERS_FRAME && input.frame.sid == sid
    requires !input.frame.Has(END_HEADERS) && input.frame.Has(END_STREAM)
    ensures After(c, input).Some? && Dropped(c, After(c, input).value, sid)
  {
    hide Frame.Has, EndHeader;
  }

  lemma KeepsDropped(c: Connection, c1: Connection, input: Input, sid: uint32)
    requires Dropped(c, c1, sid)
    requires Between(c1, input.frame, sid) || IsContinuation(input.frame, sid)
    ensures After(c1, input).Some? && Dropped(c, After(c1, input).value, sid)
    ensures Completes(c1, input.frame).None?
  {
    hide Frame.Has, EndHeader;
  }

  lemma {:induction false} UnfinishedIsDropped(c: Connection, inputs: seq<Input>, sid: uint32)
    requires Unfinished(c, inputs, sid) && EndsStream(inputs)
    ensures RunFrames(c, inputs).Some? && Dropped(c, RunFrames(c, inputs).value, sid)
  {
    hide After, Dropped, Between, Frame.Has;
    var init, last := inputs[..|inputs| - 1], inputs[|inputs| - 1];
    if |init| == 0 {
      StartsDropped(c, last, sid);
    } else {
      UnfinishedIsDropped(c, init, sid);
      KeepsDropped(c, RunFrames(c, init).value, last, sid);
    }
  }

  /** END_STREAM on a HEADERS frame that does not end its block loses the block: its stream is
      gone, its continuations are refused, and the decoder never sees it. */
  lemma BlockIsLost(c: Connection, inputs: seq<Input>, sid: uint32)
    requires Transmits(c, inputs, sid) && IsLost(inputs)
    ensures RunFrames(c, inputs).Some? && Dropped(c, RunFrames(c, inputs).value, sid)
  {
    hide After, Dropped, Between, Frame.Has;
    var init, last := inputs[..|inputs| - 1], inputs[|inputs| - 1];
    assert |init| > 0 ==> init[0] == inputs[0];
    UnfinishedIsDropped(c, init, sid);
    KeepsDropped(c, RunFrames(c, init).value, last, sid);
  }

  /** A legal request that is never answered: its second frame completes the block. */
  function LostRun(): seq<Input> {
    [Input(NewFrame(HEADERS_FRAME, END_STREAM, 1, [0x84]), true),
     Input(NewFrame(CONTINUATION_FRAME, END_HEADERS, 1, []), true)]
  }

  lemma LostRunFails()
    ensures Transmits(NEW_CONNECTION, LostRun(), 1)
    ensures RunFrames(NEW_CONNECTION, LostRun()) == Some(NEW_CONNECTION)
  {
    hide EndHeader;
    var c, first, last := NEW_CONNECTION, LostRun()[0], LostRun()[1];
    assert LostRun()[..1] == [first] && [first][..0] == [];
    StartsDropped(c, first, 1);
    var c1 := After(c, first).value;
    assert c1.streams == map[];
    assert RunFrames(c, [first]) == Some(c1);
    KeepsDropped(c, c1, last, 1);
  }

  /** A block is decoded exactly when its HEADERS frame has no END_STREAM or has END_HEADERS
      already. */
  lemma DecodedExactly(c: Connection, inputs: seq<Input>, sid: uint32)
    requires Transmits(c, inputs, sid)
    ensures RunFrames(c, inputs[..|inputs| - 1]).Some?
    ensures var before := RunFrames(c, inputs[..|inputs| - 1]).value;
            Completes(before, inputs[|inputs| - 1].frame) ==
            if inputs[0].frame.Has(END_STREAM) && !inputs[0].frame.Has(END_HEADERS) then None
            else Some(FragmentsOf(c, sid) + Fragments(inputs, sid))
  {
    hide After, Between, Frame.Has;
    var init, last := inputs[..|inputs| - 1], inputs[|inputs| - 1];
    ConcatAssociative(FragmentsOf(c, sid), Fragments(init, sid), last.frame.payload);
    if |init| == 0 {
      assert [] + last.frame.payload == last.frame.payload;
    } else {
      assert init[0] == inputs[0];
      FirstFragment(c, init, sid);
      if EndsStream(init) {
        UnfinishedIsDropped(c, init, sid);
      } else {
        Collects(c, init, sid);
      }
    }
  }

  /** Two ways of sending the same block, cut and interleaved differently, cannot be told apart
      by what is decoded and handed on; with the same END_STREAM, nor by the stream. */
  lemma FragmentationIrrelevant(c: Connection, a: seq<Input>, b: seq<Input>, sid: uint32)
    requires Transmits(c, a, sid) && Transmits(c, b, sid) && !IsLost(a) && !IsLost(b)
    requires Fragments(a, sid) == Fragments(b, sid)
    ensures RunFrames(c, a).Some? <==> RunFrames(c, b).Some?
    ensures RunFrames(c, a).Some? ==>
              var x, y := RunFrames(c, a).value, RunFrames(c, b).value;
              && x.table == y.table && x.requests == y.requests
              && (EndsStream(a) == EndsStream(b) ==>
                    && (sid in x.streams <==> sid in y.streams)
                    && (sid in x.streams ==>
                          && x.streams[sid].headers == y.streams[sid].headers
                          && x.streams[sid].state == y.streams[sid].state
                          && x.streams[sid].fragments == y.streams[sid].fragments))
  {
    hide Transmits, RunFrames, DecodeBlock, Fragments;
    BlockArrives(c, a, sid);
    BlockArrives(c, b, sid);
  }
}
