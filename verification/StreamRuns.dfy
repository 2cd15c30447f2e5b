/** What holds of a connection's streams over whole runs of frames. */
module StreamRuns {
  import opened Bytes
  import opened Frames
  import opened FrameBuffers
  import opened HeaderTable
  import opened HpackDecoder
  import opened HpackBlocks
  import opened HpackDefined
  import opened Streams

  // ---------------------------------------------------------------- the stream table

  /** The block that the frame completes, with the fragments that came before. */
  function Completes(c: Connection, f: Frame): Option<seq<byte>> {
    if !f.Has(END_HEADERS) then None
    else if f.kind == HEADERS_FRAME then Some(WithStream(c, f.sid).streams[f.sid].fragments + f.payload)
    else if f.kind == CONTINUATION_FRAME && f.sid in c.streams
            && (c.streams[f.sid].state.OPEN? || c.streams[f.sid].state.HALF_CLOSED_REMOTE?)
    then Some(c.streams[f.sid].fragments + f.payload)
    else None
  }

  /** The frame completes a block, and decoding it does not throw. */
  ghost predicate Finishes(c: Connection, f: Frame) {
    Completes(c, f).Some? && DecodeBlock(c.table, Completes(c, f).value).outcome != Threw
  }

  /** The latest HEADERS frame of stream `sid` began a block that has not been decoded since. */
  ghost predicate Pending(c: Connection, inputs: seq<Input>, sid: uint32) {
    |inputs| > 0 &&
    var init, f := inputs[..|inputs| - 1], inputs[|inputs| - 1].frame;
    RunFrames(c, init).Some? &&
    var before := RunFrames(c, init).value;
    if f.sid == sid && Finishes(before, f) then false
    else (f.sid == sid && f.kind == HEADERS_FRAME) || Pending(c, init, sid)
  }

  ghost predicate EntryIs(c: Connection, sid: uint32, pending: bool) {
    sid in c.streams ==>
      c.streams[sid].id == sid && c.streams[sid].state == if pending then OPEN else HALF_CLOSED_REMOTE
  }

  /** Whether a block of `sid` is pending after a frame, given whether one was before. */
  ghost predicate PendingAfter(c: Connection, f: Frame, sid: uint32, pending: bool) {
    if f.sid == sid && Finishes(c, f) then false
    else (f.sid == sid && f.kind == HEADERS_FRAME) || pending
  }

  lemma HeadersKeepEntry(c: Connection, input: Input, sid: uint32, pending: bool)
    requires input.frame.kind == HEADERS_FRAME && EntryIs(c, sid, pending) && After(c, input).Some?
    ensures EntryIs(After(c, input).value, sid, PendingAfter(c, input.frame, sid, pending))
  {
    hide DecodeBlock, HasPath, Frame.Has;
  }

  lemma ContinuationKeepsEntry(c: Connection, input: Input, sid: uint32, pending: bool)
    requires input.frame.kind == CONTINUATION_FRAME && EntryIs(c, sid, pending) && After(c, input).Some?
    ensures EntryIs(After(c, input).value, sid, PendingAfter(c, input.frame, sid, pending))
  {
    hide DecodeBlock, HasPath, Frame.Has;
  }

  /** One frame, seen from one stream. */
  lemma FrameKeepsEntry(c: Connection, input: Input, sid: uint32, pending: bool)
    requires EntryIs(c, sid, pending) && After(c, input).Some?
    ensures EntryIs(After(c, input).value, sid, PendingAfter(c, input.frame, sid, pending))
  {
    hide DecodeBlock, HasPath, Frame.Has, Headers, Continuation;
    if input.frame.kind == HEADERS_FRAME {
      HeadersKeepEntry(c, input, sid, pending);
    } else if input.frame.kind == CONTINUATION_FRAME {
      ContinuationKeepsEntry(c, input, sid, pending);
    }
  }

  /** In every reachable state an entry's key is its stream's number, its state is OPEN or
      HALF_CLOSED_REMOTE and nothing else, and it is OPEN exactly while the block begun by its
      latest HEADERS frame has not been decoded without an exception. */
  lemma StreamTable(inputs: seq<Input>, sid: uint32)
    requires RunFrames(NEW_CONNECTION, inputs).Some? && sid in RunFrames(NEW_CONNECTION, inputs).value.streams
    ensures var s := RunFrames(NEW_CONNECTION, inputs).value.streams[sid];
            && s.id == sid
            && s.state == if Pending(NEW_CONNECTION, inputs, sid) then OPEN else HALF_CLOSED_REMOTE
  {
    EntryOverRun(inputs, sid);
  }

  lemma {:induction false} EntryOverRun(inputs: seq<Input>, sid: uint32)
    requires RunFrames(NEW_CONNECTION, inputs).Some?
    ensures EntryIs(RunFrames(NEW_CONNECTION, inputs).value, sid, Pending(NEW_CONNECTION, inputs, sid))
  {
    hide EntryIs, After, Finishes;
    if |inputs| == 0 {
      NoEntry(sid);
    } else {
      var init, last := inputs[..|inputs| - 1], inputs[|inputs| - 1];
      EntryOverRun(init, sid);
      FrameKeepsEntry(RunFrames(NEW_CONNECTION, init).value, last, sid, Pending(NEW_CONNECTION, init, sid));
    }
  }

  lemma NoEntry(sid: uint32)
    ensures EntryIs(NEW_CONNECTION, sid, false)
  {
  }

  // ---------------------------------------------------------------- which streams there are

  /** The peer's own frames tell whether the server still has stream `sid`: its last HEADERS
      frame had no END_STREAM, and neither RST_STREAM nor GOAWAY came after it. */
  predicate Live(inputs: seq<Input>, sid: uint32) {
    |inputs| > 0 &&
    var f := inputs[|inputs| - 1].frame;
    if f.kind == GOAWAY_FRAME || (f.kind == RST_STREAM_FRAME && f.sid == sid) then false
    else if f.kind == HEADERS_FRAME && f.sid == sid then !f.Has(END_STREAM)
    else Live(inputs[..|inputs| - 1], sid)
  }

  predicate IsFragment(f: Frame, sid: uint32) {
    f.sid == sid && (f.kind == HEADERS_FRAME || f.kind == CONTINUATION_FRAME)
  }

  /** The fragments sent on `sid`, put together. */
  function Fragments(inputs: seq<Input>, sid: uint32): seq<byte> {
    if |inputs| == 0 then []
    else
      var f := inputs[|inputs| - 1].frame;
      Fragments(inputs[..|inputs| - 1], sid) + if IsFragment(f, sid) then f.payload else []
  }

  /** The fragments taken in on `sid` since its last finished block. */
  ghost function Leftover(inputs: seq<Input>, sid: uint32): seq<byte>
    requires RunFrames(NEW_CONNECTION, inputs).Some?
  {
    if |inputs| == 0 || !Live(inputs, sid) then []
    else
      var init, f := inputs[..|inputs| - 1], inputs[|inputs| - 1].frame;
      if !IsFragment(f, sid) then Leftover(init, sid)
      else if Finishes(RunFrames(NEW_CONNECTION, init).value, f) then []
      else Leftover(init, sid) + f.payload
  }

  function FragmentsOf(c: Connection, sid: uint32): seq<byte> {
    WithStream(c, sid).streams[sid].fragments
  }

  function HeadersOf(c: Connection, sid: uint32): seq<Header> {
    WithStream(c, sid).streams[sid].headers
  }

  /** What a frame does to one stream and its fragments. */
  ghost predicate FragmentsStep(c: Connection, f: Frame, c': Connection, sid: uint32) {
    && (sid in c'.streams <==>
          if f.kind == GOAWAY_FRAME || (f.kind == RST_STREAM_FRAME && f.sid == sid) then false
          else if f.kind == HEADERS_FRAME && f.sid == sid then !f.Has(END_STREAM)
          else sid in c.streams)
    && FragmentsOf(c', sid) ==
         if sid !in c'.streams then []
         else if !IsFragment(f, sid) then FragmentsOf(c, sid)
         else if Finishes(c, f) then []
         else FragmentsOf(c, sid) + f.payload
  }

  lemma HeadersFragments(c: Connection, input: Input, sid: uint32)
    requires input.frame.kind == HEADERS_FRAME && After(c, input).Some?
    ensures FragmentsStep(c, input.frame, After(c, input).value, sid)
  {
    hide DecodeBlock, HasPath, Frame.Has;
  }

  lemma ContinuationFragments(c: Connection, input: Input, sid: uint32, pending: bool)
    requires input.frame.kind == CONTINUATION_FRAME && EntryIs(c, sid, pending) && After(c, input).Some?
    ensures FragmentsStep(c, input.frame, After(c, input).value, sid)
  {
    hide DecodeBlock, HasPath, Frame.Has;
  }

  lemma FrameFragments(c: Connection, input: Input, sid: uint32, pending: bool)
    requires EntryIs(c, sid, pending) && After(c, input).Some?
    ensures FragmentsStep(c, input.frame, After(c, input).value, sid)
  {
    hide DecodeBlock, HasPath, Frame.Has, Headers, Continuation, Finishes;
    if input.frame.kind == HEADERS_FRAME {
      HeadersFragments(c, input, sid);
    } else if input.frame.kind == CONTINUATION_FRAME {
      ContinuationFragments(c, input, sid, pending);
    }
  }

  /** What the server keeps of a stream between blocks is exactly what the peer can work out:
      whether the stream is there, and which bytes the next block will start with. Fragments stay
      behind when a block throws, is begun again by another HEADERS frame, or is followed by a
      CONTINUATION frame. */
  lemma {:induction false} LeftBehind(inputs: seq<Input>, sid: uint32)
    requires RunFrames(NEW_CONNECTION, inputs).Some?
    ensures sid in RunFrames(NEW_CONNECTION, inputs).value.streams <==> Live(inputs, sid)
    ensures FragmentsOf(RunFrames(NEW_CONNECTION, inputs).value, sid) == Leftover(inputs, sid)
  {
    hide EntryIs, After, Finishes, Frame.Has, FragmentsOf;
    if |inputs| == 0 {
      NoFragments(sid);
    } else {
      var init, last := inputs[..|inputs| - 1], inputs[|inputs| - 1];
      LeftBehind(init, sid);
      EntryOverRun(init, sid);
      FrameFragments(RunFrames(NEW_CONNECTION, init).value, last, sid, Pending(NEW_CONNECTION, init, sid));
    }
  }

  lemma NoFragments(sid: uint32)
    ensures FragmentsOf(NEW_CONNECTION, sid) == []
  {
  }

  function DataOf(c: Connection, sid: uint32): seq<byte> {
    WithStream(c, sid).streams[sid].data
  }

  /** The data taken in on `sid`: what came while a header block was pending, in order, since the
      stream was opened. */
  ghost function DataSent(inputs: seq<Input>, sid: uint32): seq<byte>
    requires RunFrames(NEW_CONNECTION, inputs).Some?
  {
    if |inputs| == 0 || !Live(inputs, sid) then []
    else
      var init, f := inputs[..|inputs| - 1], inputs[|inputs| - 1].frame;
      DataSent(init, sid)
      + if f.kind == DATA_FRAME && f.sid == sid && Pending(NEW_CONNECTION, init, sid) then f.payload else []
  }

  /** What a frame does to the data of one stream. */
  ghost predicate DataStep(c: Connection, f: Frame, c': Connection, sid: uint32, pending: bool) {
    DataOf(c', sid) ==
    if sid !in c'.streams then []
    else DataOf(c, sid) + if f.kind == DATA_FRAME && f.sid == sid && pending then f.payload else []
  }

  lemma HeadersData(c: Connection, input: Input, sid: uint32, pending: bool)
    requires input.frame.kind == HEADERS_FRAME && After(c, input).Some?
    ensures DataStep(c, input.frame, After(c, input).value, sid, pending)
  {
    hide DecodeBlock, HasPath, Frame.Has;
  }

  lemma ContinuationData(c: Connection, input: Input, sid: uint32, pending: bool)
    requires input.frame.kind == CONTINUATION_FRAME && After(c, input).Some?
    ensures DataStep(c, input.frame, After(c, input).value, sid, pending)
  {
    hide DecodeBlock, HasPath, Frame.Has;
  }

  lemma FrameData(c: Connection, input: Input, sid: uint32, pending: bool)
    requires EntryIs(c, sid, pending) && After(c, input).Some?
    ensures DataStep(c, input.frame, After(c, input).value, sid, pending)
  {
    hide DecodeBlock, HasPath, Frame.Has, Headers, Continuation;
    if input.frame.kind == HEADERS_FRAME {
      HeadersData(c, input, sid, pending);
    } else if input.frame.kind == CONTINUATION_FRAME {
      ContinuationData(c, input, sid, pending);
    }
  }

  /** The data that a stream holds is what its peer sent while it was accepted. */
  lemma {:induction false} DataCollected(inputs: seq<Input>, sid: uint32)
    requires RunFrames(NEW_CONNECTION, inputs).Some?
    ensures DataOf(RunFrames(NEW_CONNECTION, inputs).value, sid) == DataSent(inputs, sid)
  {
    hide EntryIs, After, Live, DataOf, Pending;
    if |inputs| == 0 {
      NoData(sid);
    } else {
      var init, last := inputs[..|inputs| - 1], inputs[|inputs| - 1];
      LeftBehind(inputs, sid);
      DataCollected(init, sid);
      EntryOverRun(init, sid);
      FrameData(RunFrames(NEW_CONNECTION, init).value, last, sid, Pending(NEW_CONNECTION, init, sid));
    }
  }

  lemma NoData(sid: uint32)
    ensures DataOf(NEW_CONNECTION, sid) == []
  {
  }

  /** The branch for a stream that is already closed is never taken: a reset is refused exactly
      when there is no such stream. */
  lemma {:induction false} ResetRefused(inputs: seq<Input>, f: Frame)
    requires RunFrames(NEW_CONNECTION, inputs).Some?
    ensures Reset(RunFrames(NEW_CONNECTION, inputs).value, f).ok <==> Live(inputs, f.sid)
  {
    hide RunFrames, Live, Pending;
    LeftBehind(inputs, f.sid);
    EntryOverRun(inputs, f.sid);
  }

  /** Data is accepted exactly while the stream's header block is pending; a request body, which
      comes after it, is always refused. */
  lemma {:induction false} DataAccepted(inputs: seq<Input>, f: Frame)
    requires RunFrames(NEW_CONNECTION, inputs).Some?
    ensures Data(RunFrames(NEW_CONNECTION, inputs).value, f).ok <==>
            Live(inputs, f.sid) && Pending(NEW_CONNECTION, inputs, f.sid)
  {
    hide RunFrames, Live, Pending;
    LeftBehind(inputs, f.sid);
    EntryOverRun(inputs, f.sid);
  }

  // ---------------------------------------------------------------- runs in parts

  lemma {:induction false} RunConcat(c: Connection, a: seq<Input>, b: seq<Input>)
    ensures RunFrames(c, a + b) == match RunFrames(c, a) case None => None case Some(c') => RunFrames(c', b)
  {
    hide After;
    if |b| == 0 {
      assert a + b == a;
    } else {
      var init := b[..|b| - 1];
      RunConcat(c, a, init);
      assert (a + b)[..|a + b| - 1] == a + init;
    }
  }

  lemma RunOne(c: Connection, input: Input)
    ensures RunFrames(c, [input]) == After(c, input)
  {
    hide After;
    assert [input][..0] == [];
    assert RunFrames(c, []) == Some(c);
  }

  function Later(served: nat -> bool, m: nat): nat -> bool {
    (i: nat) => served(m + i)
  }

  /** Two reads are handled like one that brings the same bytes, if the first ends where a frame
      ends. `FrameBuffers.ReadsJoin` shows that the condition is exact for the frames. */
  lemma TwoReads(c: Connection, a: seq<byte>, b: seq<byte>, served: nat -> bool)
    requires Whole(a) && Segment(a).defined && Segment(b).defined
    ensures Segment(a + b).defined
    ensures var m := |Segment(a).frames|;
            RunFrames(c, Inputs(Segment(a + b).frames, served)) ==
            match RunFrames(c, Inputs(Segment(a).frames, served))
            case None => None
            case Some(c') => RunFrames(c', Inputs(Segment(b).frames, Later(served, m)))
  {
    hide Segment, Whole, RunFrames;
    WholeThen(a, b);
    var x, y := Segment(a).frames, Segment(b).frames;
    var m := |x|;
    assert Inputs(x + y, served) == Inputs(x, served) + Inputs(y, Later(served, m));
    RunConcat(c, Inputs(x, served), Inputs(y, Later(served, m)));
  }

  // ---------------------------------------------------------------- undefined behaviour

  /** The frame completes a block that runs into the decoder's undefined shift. */
  ghost predicate Derails(c: Connection, f: Frame) {
    Completes(c, f).Some? && DecodeBlock(c.table, Completes(c, f).value).outcome == Outcome.Undefined
  }

  lemma FrameUndefinedBlock(c: Connection, input: Input)
    ensures After(c, input).None? <==> Derails(c, input.frame)
  {
    hide DecodeBlock, HasPath, Frame.Has;
  }

  ghost predicate DerailsAt(c: Connection, inputs: seq<Input>, i: nat)
    requires i < |inputs|
  {
    RunFrames(c, inputs[..i]).Some? && Derails(RunFrames(c, inputs[..i]).value, inputs[i].frame)
  }

  /** A run leaves the defined behaviour exactly when some frame completes such a block;
      `HpackDefined.BlockUndefined` says which blocks these are. */
  lemma {:induction false} RunUndefined(c: Connection, inputs: seq<Input>)
    ensures RunFrames(c, inputs).None? <==> exists i: nat :: i < |inputs| && DerailsAt(c, inputs, i)
  {
    hide After, Derails;
    if |inputs| > 0 {
      var n := |inputs| - 1;
      var init := inputs[..n];
      RunUndefined(c, init);
      forall i: nat | i < n
        ensures DerailsAt(c, init, i) == DerailsAt(c, inputs, i)
      {
        assert init[..i] == inputs[..i];
      }
      if RunFrames(c, init).Some? {
        FrameUndefinedBlock(RunFrames(c, init).value, inputs[n]);
        assert DerailsAt(c, inputs, n) <==> Derails(RunFrames(c, init).value, inputs[n].frame);
      } else {
        var i: nat :| i < n && DerailsAt(c, init, i);
        assert DerailsAt(c, inputs, i);
      }
    }
  }

  /** A peer whose fragments on each stream, joined, have no five bytes in a row with their top bit
      set and another byte behind them, never leaves the defined behaviour. */
  lemma {:induction false} GuardedRun(inputs: seq<Input>)
    requires forall sid: uint32 :: NoHighRun(Fragments(inputs, sid))
    ensures RunFrames(NEW_CONNECTION, inputs).Some?
  {
    hide After, NoHighRun, Completes, DecodeBlock;
    if |inputs| > 0 {
      var init, last := inputs[..|inputs| - 1], inputs[|inputs| - 1];
      forall sid: uint32
        ensures NoHighRun(Fragments(init, sid))
      {
        NoHighRunInside(Fragments(inputs, sid), 0, |Fragments(init, sid)|);
      }
      GuardedRun(init);
      var c := RunFrames(NEW_CONNECTION, init).value;
      FrameUndefinedBlock(c, last);
      if Completes(c, last.frame).Some? {
        CompletedIsSuffix(inputs);
        var all, block := Fragments(inputs, last.frame.sid), Completes(c, last.frame).value;
        NoHighRunInside(all, |all| - |block|, |all|);
        assert all[|all| - |block|..|all|] == block;
        GuardedBlock(c.table, block);
      }
    }
  }

  lemma NoHighRunInside(b: seq<byte>, i: nat, j: nat)
    requires i <= j <= |b| && NoHighRun(b)
    ensures NoHighRun(b[i..j])
  {
    var c := b[i..j];
    forall k | 1 <= k < |c|
      ensures !HighRun(c, k)
    {
      assert forall m :: k <= m < k + 5 && m < |c| ==> c[m] == b[i + m];
      assert HighRun(c, k) ==> HighRun(b, i + k);
    }
  }

  predicate IsSuffix(a: seq<byte>, b: seq<byte>) {
    |a| <= |b| && b[|b| - |a|..] == a
  }

  lemma {:induction false} LeftoverIsSuffix(inputs: seq<Input>, sid: uint32)
    requires RunFrames(NEW_CONNECTION, inputs).Some?
    ensures IsSuffix(Leftover(inputs, sid), Fragments(inputs, sid))
  {
    hide After, Finishes, Live;
    if |inputs| > 0 {
      LeftoverIsSuffix(inputs[..|inputs| - 1], sid);
    }
  }

  /** A completed block is the end of what was sent on its stream. */
  lemma CompletedIsSuffix(inputs: seq<Input>)
    requires |inputs| > 0 && RunFrames(NEW_CONNECTION, inputs[..|inputs| - 1]).Some?
    ensures var c, f := RunFrames(NEW_CONNECTION, inputs[..|inputs| - 1]).value, inputs[|inputs| - 1].frame;
            Completes(c, f).Some? ==> IsSuffix(Completes(c, f).value, Fragments(inputs, f.sid))
  {
    hide After, Frame.Has, RunFrames, Leftover, IsSuffix, Live;
    var init, f := inputs[..|inputs| - 1], inputs[|inputs| - 1].frame;
    LeftBehind(init, f.sid);
    LeftoverIsSuffix(init, f.sid);
    SuffixGrows(Leftover(init, f.sid), Fragments(init, f.sid), f.payload);
  }

  lemma SuffixGrows(a: seq<byte>, b: seq<byte>, more: seq<byte>)
    requires IsSuffix(a, b)
    ensures IsSuffix(a + more, b + more)
  {
    assert (b + more)[|b| - |a|..] == b[|b| - |a|..] + more;
  }

  /** One frame that leaves it. */
  lemma UndefinedRun(served: bool)
    ensures var block := [0xff, 0x80, 0x80, 0x80, 0x80, 0x80, 0x00];
            RunFrames(NEW_CONNECTION, [Input(NewFrame(HEADERS_FRAME, END_HEADERS, 1, block), served)]).None?
  {
    hide DecodeBlock, After;
    var block: seq<byte> := [0xff, 0x80, 0x80, 0x80, 0x80, 0x80, 0x00];
    var input := Input(NewFrame(HEADERS_FRAME, END_HEADERS, 1, block), served);
    OverlongBlock(NEW_CONNECTION.table);
    FrameUndefinedBlock(NEW_CONNECTION, input);
    assert Completes(NEW_CONNECTION, input.frame).value == [] + block == block;
    RunOne(NEW_CONNECTION, input);
  }

  // ---------------------------------------------------------------- what runs depend on

  /** The reply without its verdict. */
  ghost predicate SameState(x: Reply, y: Reply) {
    x.Handled? == y.Handled? && (x.Handled? ==> x.conn == y.conn)
  }

  lemma SameFlags(f: Frame, g: Frame)
    requires SameToHandlers(f, g)
    ensures f.Has(END_HEADERS) == g.Has(END_HEADERS) && f.Has(END_STREAM) == g.Has(END_STREAM)
    ensures f.Has(ACK) == g.Has(ACK)
  {
  }

  lemma SameEnd(c: Connection, sid: uint32, p: bool, q: bool)
    requires sid in c.streams
    ensures SameState(EndHeader(c, sid, p), EndHeader(c, sid, q))
  {
    hide DecodeBlock, HasPath, Decoded;
  }

  lemma SameHeaders(c: Connection, f: Frame, g: Frame, p: bool, q: bool)
    requires SameToHandlers(f, g)
    ensures SameState(Headers(c, f, p), Headers(c, g, q))
  {
    hide EndHeader, Frame.Has;
    SameFlags(f, g);
    SameEnd(Opened(c, f), f.sid, p, q);
  }

  lemma SameContinuation(c: Connection, f: Frame, g: Frame, p: bool, q: bool)
    requires SameToHandlers(f, g)
    ensures SameState(Continuation(c, f, p), Continuation(c, g, q))
  {
    hide EndHeader, Frame.Has;
    SameFlags(f, g);
    if f.sid in c.streams {
      SameEnd(Continued(c, f), f.sid, p, q);
    }
  }

  /** What a frame does depends neither on its priority nor on whether anything could be sent. */
  lemma SameStep(c: Connection, a: Input, b: Input)
    requires SameToHandlers(a.frame, b.frame)
    ensures After(c, a) == After(c, b)
  {
    hide Headers, Continuation, Frame.Has, SettingsCodec.Acknowledged, SettingsCodec.DecodeSettings;
    var f, g := a.frame, b.frame;
    SameFlags(f, g);
    if f.kind == HEADERS_FRAME {
      SameHeaders(c, f, g, a.served, b.served);
    } else if f.kind == CONTINUATION_FRAME {
      SameContinuation(c, f, g, a.served, b.served);
    }
  }

  predicate SameInputs(a: seq<Input>, b: seq<Input>) {
    |a| == |b| && forall i :: 0 <= i < |a| ==> SameToHandlers(a[i].frame, b[i].frame)
  }

  lemma {:induction false} SameRun(c: Connection, a: seq<Input>, b: seq<Input>)
    requires SameInputs(a, b)
    ensures RunFrames(c, a) == RunFrames(c, b)
  {
    hide After, SameToHandlers;
    if |a| > 0 {
      var n := |a| - 1;
      SameRun(c, a[..n], b[..n]);
      if RunFrames(c, a[..n]).Some? {
        SameStep(RunFrames(c, a[..n]).value, a[n], b[n]);
      }
    }
  }

  // ---------------------------------------------------------------- the requests

  /** The request that a frame leads to: a block that it completes without an exception, behind
      what the stream had received before. */
  ghost function FrameRequests(c: Connection, f: Frame): seq<Request> {
    match Completes(c, f)
    case None => []
    case Some(block) =>
      var r := DecodeBlock(c.table, block);
      if r.outcome == Threw || r.outcome == Outcome.Undefined then []
      else [Request(f.sid, HeadersOf(c, f.sid) + r.headers)]
  }

  ghost function Requested(c: Connection, inputs: seq<Input>): seq<Request>
    requires RunFrames(c, inputs).Some?
  {
    if |inputs| == 0 then []
    else
      var init := inputs[..|inputs| - 1];
      Requested(c, init) + FrameRequests(RunFrames(c, init).value, inputs[|inputs| - 1].frame)
  }

  lemma FrameRequest(c: Connection, input: Input)
    requires After(c, input).Some?
    ensures After(c, input).value.requests == c.requests + FrameRequests(c, input.frame)
  {
    hide DecodeBlock, HasPath, Frame.Has;
    assert c.requests + [] == c.requests;
  }

  /** What is handed on over a run is one request for each finished block, in the order in which
      they are finished, and nothing else. */
  lemma {:induction false} RequestsOfRun(c: Connection, inputs: seq<Input>)
    requires RunFrames(c, inputs).Some?
    ensures RunFrames(c, inputs).value.requests == c.requests + Requested(c, inputs)
  {
    hide After, FrameRequests;
    if |inputs| > 0 {
      var init, last := inputs[..|inputs| - 1], inputs[|inputs| - 1];
      RequestsOfRun(c, init);
      var before := RunFrames(c, init).value;
      FrameRequest(before, last);
      ConcatAssociative(c.requests, Requested(c, init), FrameRequests(before, last.frame));
    }
  }

  // ---------------------------------------------------------------- the shared decoder

  /** The blocks completed during a run, on whatever stream, in the order of completion. */
  ghost function Blocks(c: Connection, inputs: seq<Input>): seq<seq<byte>>
    requires RunFrames(c, inputs).Some?
  {
    if |inputs| == 0 then []
    else
      var init, f := inputs[..|inputs| - 1], inputs[|inputs| - 1].frame;
      Blocks(c, init) + match Completes(RunFrames(c, init).value, f) case None => [] case Some(block) => [block]
  }

  /** The table after decoding some blocks one after the other. */
  ghost function TableAfterBlocks(t: Table, blocks: seq<seq<byte>>): Table {
    if |blocks| == 0 then t
    else DecodeBlock(TableAfterBlocks(t, blocks[..|blocks| - 1]), blocks[|blocks| - 1]).table
  }

  ghost predicate AllAccepted(t: Table, blocks: seq<seq<byte>>) {
    |blocks| > 0 ==>
      && AllAccepted(t, blocks[..|blocks| - 1])
      && DecodeBlock(TableAfterBlocks(t, blocks[..|blocks| - 1]), blocks[|blocks| - 1]).outcome == Accepted
  }

  lemma FrameTable(c: Connection, input: Input)
    requires After(c, input).Some?
    ensures After(c, input).value.table ==
            match Completes(c, input.frame) case None => c.table case Some(block) => DecodeBlock(c.table, block).table
  {
    hide DecodeBlock, HasPath, Frame.Has;
  }

  /** The streams share one HPACK context: it is what decoding the completed blocks in the order
      of their completion makes of it, and nothing else moves it. */
  lemma {:induction false} SharedTable(c: Connection, inputs: seq<Input>)
    requires RunFrames(c, inputs).Some?
    ensures RunFrames(c, inputs).value.table == TableAfterBlocks(c.table, Blocks(c, inputs))
  {
    hide After, Completes, DecodeBlock;
    if |inputs| > 0 {
      var init := inputs[..|inputs| - 1];
      SharedTable(c, init);
      FrameTable(RunFrames(c, init).value, inputs[|inputs| - 1]);
      var before := Blocks(c, init);
      match Completes(RunFrames(c, init).value, inputs[|inputs| - 1].frame)
      case None => assert before + [] == before;
      case Some(block) => assert (before + [block])[..|before|] == before;
    }
  }

  /** Blocks that are all accepted might as well be one block. */
  lemma {:induction false} AsOneBlock(t: Table, blocks: seq<seq<byte>>)
    requires AllAccepted(t, blocks)
    ensures DecodeBlock(t, Flatten(blocks)).outcome == Accepted
    ensures DecodeBlock(t, Flatten(blocks)).table == TableAfterBlocks(t, blocks)
  {
    if |blocks| > 0 {
      var init, last := blocks[..|blocks| - 1], blocks[|blocks| - 1];
      AsOneBlock(t, init);
      DecodeConcat(t, Flatten(init), last);
    }
  }

  /** In a run without failed decodings, the shared table is that of a single decoding of all
      the completed blocks joined together. */
  lemma SharedContext(c: Connection, inputs: seq<Input>)
    requires RunFrames(c, inputs).Some? && AllAccepted(c.table, Blocks(c, inputs))
    ensures RunFrames(c, inputs).value.table == DecodeBlock(c.table, Flatten(Blocks(c, inputs))).table
  {
    hide RunFrames, Blocks, AllAccepted, DecodeBlock;
    SharedTable(c, inputs);
    AsOneBlock(c.table, Blocks(c, inputs));
  }

  /** Whatever is received, the table keeps within its bounds. */
  lemma {:induction false} TableStaysInBounds(inputs: seq<Input>)
    requires RunFrames(NEW_CONNECTION, inputs).Some?
    ensures WithinBounds(RunFrames(NEW_CONNECTION, inputs).value.table)
  {
    hide After, DecodeBlock, WithinBounds;
    if |inputs| > 0 {
      var init := inputs[..|inputs| - 1];
      var c, input := RunFrames(NEW_CONNECTION, init).value, inputs[|inputs| - 1];
      TableStaysInBounds(init);
      FrameTable(c, input);
      if Completes(c, input.frame).Some? {
        DecodeKeepsBounds(c.table, Completes(c, input.frame).value);
      }
    } else {
      NewWithinBounds();
    }
  }

  lemma NewWithinBounds()
    ensures WithinBounds(NEW_CONNECTION.table)
  {
  }

  // ---------------------------------------------------------------- settings

  /** The payload of a SETTINGS frame that the server takes over. */
  predicate TakenOver(f: Frame) {
    && f.kind == SETTINGS_FRAME && f.sid == 0 && !f.Has(ACK)
    && SettingsCodec.DecodeSettings(SettingsCodec.DEFAULTS, f.payload).0.NO_ERROR?
  }

  /** The settings held are those of the last accepted SETTINGS frame alone: what earlier ones
      said is forgotten. */
  lemma {:induction false} SettingsOfLastFrame(c: Connection, inputs: seq<Input>, i: nat)
    requires i < |inputs| && RunFrames(c, inputs).Some?
    requires TakenOver(inputs[i].frame) && forall j :: i < j < |inputs| ==> !TakenOver(inputs[j].frame)
    ensures RunFrames(c, inputs).value.settings
         == SettingsCodec.DecodeSettings(SettingsCodec.DEFAULTS, inputs[i].frame.payload).1
  {
    hide After, TakenOver, SettingsCodec.DecodeSettings;
    var init, last := inputs[..|inputs| - 1], inputs[|inputs| - 1];
    FrameSettings(RunFrames(c, init).value, last);
    if i < |init| {
      SettingsOfLastFrame(c, init, i);
    }
  }

  lemma FrameSettings(c: Connection, input: Input)
    requires After(c, input).Some?
    ensures After(c, input).value.settings ==
            if TakenOver(input.frame)
            then SettingsCodec.DecodeSettings(SettingsCodec.DEFAULTS, input.frame.payload).1
            else c.settings
  {
    hide DecodeBlock, HasPath, Frame.Has, SettingsCodec.DecodeSettings;
  }
}
