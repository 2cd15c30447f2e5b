/** One request of a connection: from the bytes of a peer's header list, among anything else it
    sends, to what it reads on the stream of that request. */
module SingleRequests {
  import opened Bytes
  import opened Frames
  import opened HeaderTable
  import opened HpackEncoder
  import opened HpackDecoder
  import opened HpackBlocks
  import opened Representations
  import opened Serving
  import opened Streams
  import opened StreamRuns
  import opened Reassembly
  import opened Arrivals
  import opened ThreadPool
  import opened OrderedWrites
  import opened Conversations
  import opened Replies
  import opened Exchanges

  /** The wires of all reads, in order. */
  function AllWires(wss: seq<seq<Wire>>): seq<Wire> {
    if |wss| == 0 then [] else AllWires(wss[..|wss| - 1]) + wss[|wss| - 1]
  }

  /** Each read brings whole frames, behind a preface or not. */
  predicate Brings(rs: seq<Reading>, wss: seq<seq<Wire>>) {
    && |rs| == |wss|
    && forall i :: 0 <= i < |rs| ==>
         && (forall x <- wss[i] :: LegalWire(x))
         && BehindPreface(rs[i].buffer, rs[i].bytesRead) == AllWireBytes(wss[i])
  }

  lemma {:induction false} AllKeptConcat(a: seq<Wire>, b: seq<Wire>)
    ensures AllKept(a + b) == AllKept(a) + AllKept(b)
  {
    hide KeptOf;
  }

  lemma {:induction false} WiresCut(rs: seq<Reading>, wss: seq<seq<Wire>>)
    requires Brings(rs, wss)
    ensures ReadFrames(rs) == AllKept(AllWires(wss))
    ensures forall r <- rs :: Cut(r).defined
  {
    hide BehindPreface, AllWireBytes, LegalWire, AllKept, Segment;
    if |rs| == 0 {
      NoWires();
    } else {
      var n := |rs| - 1;
      WiresCut(rs[..n], wss[..n]);
      SegmentWires(wss[n]);
      AllKeptConcat(AllWires(wss[..n]), wss[n]);
      assert rs == rs[..n] + [rs[n]];
    }
  }

  lemma NoWires()
    ensures AllKept([]) == []
  {
  }

  /** No header block is sent on the stream. */
  predicate Unused(ws: seq<Wire>, sid: uint32) {
    forall x <- ws :: x.sid == sid ==> x.kind != HEADERS_FRAME && x.kind != CONTINUATION_FRAME
  }

  predicate NoFragments(inputs: seq<Input>, sid: uint32) {
    forall i :: 0 <= i < |inputs| ==> !IsFragment(inputs[i].frame, sid)
  }

  lemma UnusedFrames(ws: seq<Wire>, sid: uint32, served: nat -> bool)
    requires Unused(ws, sid)
    ensures NoFragments(Inputs(AllKept(ws), served), sid)
  {
    hide KeptOf;
    forall i | 0 <= i < |ws|
      ensures !IsFragment(AllKept(ws)[i], sid)
    {
      KeptFields(ws[i]);
      assert ws[i] in ws;
    }
  }

  lemma {:induction false} NotLive(inputs: seq<Input>, sid: uint32)
    requires NoFragments(inputs, sid)
    ensures !Live(inputs, sid)
  {
    if |inputs| > 0 {
      NotLive(inputs[..|inputs| - 1], sid);
    }
  }

  /** A stream on which nothing was sent is new. */
  lemma NewStreamIsEmpty(inputs: seq<Input>, sid: uint32)
    requires RunFrames(NEW_CONNECTION, inputs).Some? && NoFragments(inputs, sid)
    ensures FragmentsOf(RunFrames(NEW_CONNECTION, inputs).value, sid) == []
    ensures HeadersOf(RunFrames(NEW_CONNECTION, inputs).value, sid) == []
  {
    hide RunFrames, Leftover, Live, NoFragments;
    LeftBehind(inputs, sid);
    NotLive(inputs, sid);
  }

  predicate NoneOn(requests: seq<Request>, sid: uint32) {
    forall i :: 0 <= i < |requests| ==> requests[i].sid != sid
  }

  lemma {:induction false} NoRequestsOn(c: Connection, inputs: seq<Input>, sid: uint32)
    requires RunFrames(c, inputs).Some? && NoFragments(inputs, sid)
    ensures NoneOn(Requested(c, inputs), sid)
  {
    hide After, DecodeBlock;
    if |inputs| > 0 {
      var n := |inputs| - 1;
      NoRequestsOn(c, inputs[..n], sid);
      assert !IsFragment(inputs[n].frame, sid);
    }
  }

  lemma {:induction false} NothingOn(w: Setting, sid: uint32, requests: seq<Request>)
    requires NoneOn(requests, sid)
    ensures AnswersOn(w, sid, requests) == []
  {
    hide AnswerFrames;
    if |requests| > 0 {
      NothingOn(w, sid, requests[..|requests| - 1]);
    }
  }

  lemma {:induction false} AnswersOnConcat(w: Setting, sid: uint32, a: seq<Request>, b: seq<Request>)
    ensures AnswersOn(w, sid, a + b) == AnswersOn(w, sid, a) + AnswersOn(w, sid, b)
  {
    hide AnswerFrames;
    if |b| == 0 {
      assert a + b == a;
    } else {
      var n := |b| - 1;
      AnswersOnConcat(w, sid, a, b[..n]);
      assert (a + b)[..|a| + n] == a + b[..n];
      var last := if b[n].sid == sid then AnswerFrames(w, b[n]) else [];
      ConcatAssociative(AnswersOn(w, sid, a), AnswersOn(w, sid, b[..n]), last);
    }
  }

  lemma {:induction false} TakenUpPast(w: Setting, first: seq<Request>, rq: Request, more: seq<Request>)
    ensures TakenUp(w, first + [rq] + more) > |first| <==> !SomeCrashes(w, first)
  {
    hide Crashes;
    var all := first + [rq] + more;
    if |first| > 0 {
      assert all[1..] == first[1..] + [rq] + more;
      TakenUpPast(w, first[1..], rq, more);
      if Crashes(w, first[0]) {
        assert SomeCrashes(w, first);
      } else if SomeCrashes(w, first) {
        var i :| 0 <= i < |first| && Crashes(w, first[i]);
        assert Crashes(w, first[1..][i - 1]);
      } else {
        assert forall i :: 0 <= i < |first[1..]| ==> first[1..][i] == first[i + 1];
      }
    }
  }

  /** The only request on a stream. */
  lemma OnlyRequest(w: Setting, first: seq<Request>, rq: Request, more: seq<Request>)
    requires NoneOn(first, rq.sid) && NoneOn(more, rq.sid)
    ensures Expected(w, rq.sid, first + [rq] + more) == if SomeCrashes(w, first) then [] else AnswerFrames(w, rq)
  {
    hide Crashes, AnswerFrames, AnswersOn, SomeCrashes, TakenUp;
    var all := first + [rq] + more;
    var m := TakenUp(w, all);
    var sid := rq.sid;
    TakenUpPast(w, first, rq, more);
    if m > |first| {
      var rest := more[..m - |first| - 1];
      assert all[..m] == first + [rq] + rest;
      AnswersOnConcat(w, sid, first + [rq], rest);
      AnswersOnConcat(w, sid, first, [rq]);
      NothingOn(w, sid, first);
      NothingOn(w, sid, rest);
      OneAnswer(w, rq);
    } else {
      assert all[..m] == first[..m];
      NothingOn(w, sid, first[..m]);
    }
  }

  lemma OneAnswer(w: Setting, rq: Request)
    ensures AnswersOn(w, rq.sid, [rq]) == AnswerFrames(w, rq)
  {
    hide AnswerFrames;
    assert [rq][..0] == [];
    assert AnswersOn(w, rq.sid, [rq]) == [] + AnswerFrames(w, rq);
  }

  /** The requests of a run in three parts, of which the middle one is a transmission. */
  lemma RequestsAround(a: seq<Input>, b: seq<Input>, l: seq<Input>, sid: uint32, block: seq<Representation>,
                       hs: seq<Header>)
    requires RunFrames(NEW_CONNECTION, a).Some? && RunFrames(NEW_CONNECTION, a + b + l).Some?
    requires Intact(RunFrames(NEW_CONNECTION, a).value, b, sid, block, hs)
    requires NoFragments(a, sid) && NoFragments(l, sid)
    ensures RunFrames(NEW_CONNECTION, a + b).Some?
    ensures var c2 := RunFrames(NEW_CONNECTION, a + b).value;
            && RunFrames(c2, l).Some?
            && Requested(NEW_CONNECTION, a + b + l)
                 == Requested(NEW_CONNECTION, a) + [Request(sid, hs)] + Requested(c2, l)
            && NoneOn(Requested(NEW_CONNECTION, a), sid) && NoneOn(Requested(c2, l), sid)
  {
    hide RunFrames, Requested, NoFragments, NoneOn, HeadersOf;
    var c := NEW_CONNECTION;
    RunConcat(c, a, b);
    RunConcat(c, a + b, l);
    var c2 := RunFrames(c, a + b).value;
    NewStreamIsEmpty(a, sid);
    assert [] + hs == hs;
    RequestsOfRun(c, a);
    RequestsOfRun(c2, l);
    RequestsOfRun(c, a + b + l);
    assert c.requests == [];
    assert c.requests + Requested(c, a) == Requested(c, a);
    assert c.requests + Requested(c, a + b + l) == Requested(c, a + b + l);
    NoRequestsOn(c, a, sid);
    NoRequestsOn(c2, l, sid);
  }

  /** The frames of a request, as they were received, and the ones before and behind them. */
  lemma RequestOfConnection(rs: seq<Reading>, wss: seq<seq<Wire>>, served: nat -> bool,
                            before: seq<Wire>, ws: seq<Wire>, after: seq<Wire>,
                            sid: uint32, block: seq<Representation>, hs: seq<Header>)
    returns (more: seq<Request>)
    requires Brings(rs, wss) && AllWires(wss) == before + ws + after
    requires IsDefined(NEW_CONNECTION, rs, served)
    requires RunFrames(NEW_CONNECTION, Inputs(AllKept(before), served)).Some?
    requires forall x <- ws :: Survives(x)
    requires Unused(before, sid) && Unused(after, sid)
    requires Sends(RunFrames(NEW_CONNECTION, Inputs(AllKept(before), served)).value,
                   Inputs(AllMeant(ws), served), sid, block, hs)
    ensures var first := Requested(NEW_CONNECTION, Inputs(AllKept(before), served));
            && RequestsOf(rs, served) == first + [Request(sid, hs)] + more
            && NoneOn(first, sid) && NoneOn(more, sid)
  {
    hide RunFrames, Requested, AllKept, AllMeant, Sends, Unused, NoFragments, Survives, IsSilent, FragmentsOf;
    hide Brings, AllWires, ReadFrames, Cut, NoneOn;
    var x, y, z := AllKept(before), AllKept(ws), AllKept(after);
    WiresCut(rs, wss);
    AllKeptConcat(before + ws, after);
    AllKeptConcat(before, ws);
    var a, b := Inputs(x, served), Inputs(y, Later(served, |x|));
    var l := Inputs(z, Later(served, |x + y|));
    InputsConcat(x + y, z, served);
    InputsConcat(x, y, served);
    var c1 := RunFrames(NEW_CONNECTION, a).value;
    UnusedFrames(before, sid, served);
    UnusedFrames(after, sid, Later(served, |x + y|));
    NewStreamIsEmpty(a, sid);
    NothingIsSilent(c1.table);
    HeadersArrive(c1, Inputs(AllMeant(ws), served), sid, block, hs);
    SurvivorsRun(c1, ws, served, Later(served, |x|));
    RequestsAround(a, b, l, sid, block, hs);
    more := Requested(RunFrames(NEW_CONNECTION, a + b).value, l);
  }

  lemma SurvivorsRun(c: Connection, ws: seq<Wire>, p: nat -> bool, q: nat -> bool)
    requires forall x <- ws :: Survives(x)
    ensures RunFrames(c, Inputs(AllKept(ws), q)) == RunFrames(c, Inputs(AllMeant(ws), p))
  {
    hide RunFrames, KeptOf, Meant, Survives;
    forall i | 0 <= i < |ws|
      ensures SameToHandlers(AllKept(ws)[i], AllMeant(ws)[i])
    {
      SurvivorSame(ws[i]);
    }
    SameRun(c, Inputs(AllKept(ws), q), Inputs(AllMeant(ws), p));
  }

  lemma SurvivorSame(x: Wire)
    requires Survives(x)
    ensures SameToHandlers(KeptOf(x), Meant(x))
  {
  }

  /** A header list that a peer sends on a stream it has not used yet, as bytes in any legal layout
      in which its fragments survive, among anything else it sends before and after, in any number
      of reads and behind any preface, through to what it reads. It receives all that it is sent
      exactly when every write took its whole buffer, and then it reads on this stream the answer
      to these headers and nothing else, unless an earlier request made the process abort. */
  lemma RequestToResponse(w: Setting, rs: seq<Reading>, wss: seq<seq<Wire>>, served: nat -> bool,
                          results: nat -> Results, before: seq<Wire>, ws: seq<Wire>, after: seq<Wire>,
                          sid: uint32, block: seq<Representation>, hs: seq<Header>,
                          items: seq<Item>, n: nat, events: seq<Event>, s: System)
    requires Brings(rs, wss) && AllWires(wss) == before + ws + after
    requires IsDefined(NEW_CONNECTION, rs, served)
    requires RunFrames(NEW_CONNECTION, Inputs(AllKept(before), served)).Some?
    requires forall x <- ws :: Survives(x)
    requires sid != 0 && Unused(before, sid) && Unused(after, sid)
    requires Sends(RunFrames(NEW_CONNECTION, Inputs(AllKept(before), served)).value,
                   Inputs(AllMeant(ws), served), sid, block, hs)
    requires forall item <- items :: Sendable(item)
    requires ItemsFor(w.client, items) == ReadItems(w, NEW_CONNECTION, rs, served, results)
    requires Reaches(AllCalls(items), System(Start(n), Outside), events, s)
    requires s.phase.Outside? && |s.pool.submitted| == |AllCalls(items)|
    ensures forall t <- s.pool.done :: t.id < |AllCalls(items)|
    ensures forall f <- FramesOf(ItemsFor(w.client, items)) :: Plain(f)
    ensures var received := SentTo(w.client, OrderedWrites.Written(AllCalls(items), s.pool.done));
            var mine := ItemsFor(w.client, items);
            var first := Requested(NEW_CONNECTION, Inputs(AllKept(before), served));
            && (received == EncodePlain(FramesOf(mine)) <==> AllTaken(mine))
            && (AllTaken(mine) ==>
                  && Segment(received) == Segments(true, FramesOf(mine))
                  && On(sid, Segment(received).frames)
                       == if SomeCrashes(w, first) then [] else AnswerFrames(w, Request(sid, hs)))
  {
    hide *;
    var at, died := ConnectionAnswered(w, rs, served, results, items, n, events, s);
    var more := RequestOfConnection(rs, wss, served, before, ws, after, sid, block, hs);
    OnlyRequest(w, Requested(NEW_CONNECTION, Inputs(AllKept(before), served)), Request(sid, hs), more);
  }

  /** What a peer reads as an answer: one message on the stream of its request, whose block says, to
      any decoder, the status and the type and length of the content, among `headers`. */
  ghost predicate IsAnswer(fs: seq<Frame>, sid: uint32, code: nat, page: Page, headers: seq<Header>) {
    && IsMessage(fs, page.content, sid)
    && Says(fs[0].payload, headers)
    && (forall t :: DecodeBlock(t, fs[0].payload).outcome == Accepted)
    && (forall t :: DecodeBlock(t, fs[0].payload).headers == headers)
    && Describes(headers, code, page)
  }

  lemma MessageIsAnswer(hs: seq<Header>, sid: uint32, code: nat, page: Page)
    requires AllShort(hs) && |hs| <= 17 && |page.content| > 0 && Describes(hs, code, page)
    ensures IsAnswer(ResponseFrames(hs, page.content, sid), sid, code, page, hs)
  {
    hide AllShort, ResponseFrames, DecodeBlock, EncodeBlock, IsMessage, Says, Describes;
    ResponseIsMessage(hs, page.content, sid);
    BlockSays(DefaultSensitive(), hs);
    forall t
      ensures DecodeBlock(t, EncodeBlock(DefaultSensitive(), hs)).outcome == Accepted
      ensures DecodeBlock(t, EncodeBlock(DefaultSensitive(), hs)).headers == hs
    {
      BlockRoundTrip(DefaultSensitive(), t, hs);
    }
    assert IsMessage(ResponseFrames(hs, page.content, sid), page.content, sid);
  }

  /** The answer to a request for a page: status 200, the type, length and location of the page,
      and its content. */
  lemma PageAnswer(w: Setting, rq: Request, path: seq<byte>) returns (headers: seq<Header>)
    requires FirstValue(rq.headers, Ascii(":path")) == Some(path) && |path| < 127
    requires 0 < |w.site(path).content| < Pow10(126) && |w.site(path).mimeType| < 127
    ensures !Crashes(w, rq)
    ensures IsAnswer(AnswerFrames(w, rq), rq.sid, 200, w.site(path), headers)
    ensures FirstIs(headers, Ascii("location"), path)
    ensures headers == PageHeaders(path, w.site(path))
  {
    hide FirstValue, AllShort, ResponseFrames, IsAnswer, Pow10, Describes, FirstIs;
    AbortsExactly(path, w.site(path));
    headers := PageHeaders(path, w.site(path));
    assert |headers| == 6;
    hide PageHeaders;
    PageDescribed(path, w.site(path));
    MessageIsAnswer(headers, rq.sid, 200, w.site(path));
  }

  /** The answer to a path without a page: status 404, and the type, length and content of the error
      page. */
  lemma ErrorAnswer(w: Setting, rq: Request, path: seq<byte>) returns (headers: seq<Header>)
    requires FirstValue(rq.headers, Ascii(":path")) == Some(path) && |w.site(path).content| == 0
    requires |w.notFound.content| > 0 && !Crashes(w, rq)
    ensures IsAnswer(AnswerFrames(w, rq), rq.sid, 404, w.notFound, headers)
    ensures headers == ErrorHeaders(404, w.notFound)
  {
    hide FirstValue, AllShort, ResponseFrames, IsAnswer, Describes;
    headers := ErrorHeaders(404, w.notFound);
    assert |headers| == 5;
    hide ErrorHeaders;
    ErrorDescribed(404, w.notFound);
    MessageIsAnswer(headers, rq.sid, 404, w.notFound);
  }

  /** Settings, window updates, pings, and whatever else carries no header block. */
  predicate NoBlocks(ws: seq<Wire>) {
    forall x <- ws :: x.kind != HEADERS_FRAME && x.kind != CONTINUATION_FRAME
  }

  lemma {:induction false} QuietRun(c: Connection, inputs: seq<Input>)
    requires forall i :: 0 <= i < |inputs| ==>
               inputs[i].frame.kind != HEADERS_FRAME && inputs[i].frame.kind != CONTINUATION_FRAME
    ensures RunFrames(c, inputs).Some? && Requested(c, inputs) == []
    ensures RunFrames(c, inputs).value.table == c.table
  {
    hide After, DecodeBlock;
    if |inputs| > 0 {
      var n := |inputs| - 1;
      QuietRun(c, inputs[..n]);
      FrameUndefinedBlock(RunFrames(c, inputs[..n]).value, inputs[n]);
      FrameTable(RunFrames(c, inputs[..n]).value, inputs[n]);
    }
  }

  lemma QuietWires(c: Connection, ws: seq<Wire>, served: nat -> bool, sid: uint32)
    requires NoBlocks(ws)
    ensures RunFrames(c, Inputs(AllKept(ws), served)).Some? && Requested(c, Inputs(AllKept(ws), served)) == []
    ensures RunFrames(c, Inputs(AllKept(ws), served)).value.table == c.table
    ensures Unused(ws, sid)
  {
    hide KeptOf, RunFrames, Requested;
    forall i | 0 <= i < |ws|
      ensures AllKept(ws)[i].kind != HEADERS_FRAME && AllKept(ws)[i].kind != CONTINUATION_FRAME
    {
      KeptFields(ws[i]);
      assert ws[i] in ws;
    }
    QuietRun(c, Inputs(AllKept(ws), served));
  }

  /** The simplest connections of which `RequestToResponse` speaks: one header list in one frame,
      and before and behind it any frames without header blocks. */
  lemma OneRequestConnection(rs: seq<Reading>, wss: seq<seq<Wire>>, served: nat -> bool,
                             before: seq<Wire>, x: Wire, after: seq<Wire>, block: seq<Representation>, hs: seq<Header>)
    requires Brings(rs, wss) && AllWires(wss) == before + [x] + after
    requires NoBlocks(before) && NoBlocks(after)
    requires x.kind == HEADERS_FRAME && Meant(x).Has(END_HEADERS) && Survives(x)
    requires IsMeant(NEW_CONNECTION.table, block, hs) && x.fragment == BlockBytes(block)
    ensures IsDefined(NEW_CONNECTION, rs, served)
    ensures var first := Inputs(AllKept(before), served);
            && RunFrames(NEW_CONNECTION, first).Some? && Requested(NEW_CONNECTION, first) == []
            && Sends(RunFrames(NEW_CONNECTION, first).value, Inputs(AllMeant([x]), served), x.sid, block, hs)
    ensures Unused(before, x.sid) && Unused(after, x.sid)
  {
    hide RunFrames, Requested, AllKept, Unused, NoBlocks, Survives, IsSilent, FragmentsOf, Frame.Has, Meant;
    hide Brings, AllWires, ReadFrames, Cut, IsMeant, BlockBytes, Transmits, Fragments, IsLost;
    var first, more := Inputs(AllKept(before), served), Later(served, |before|);
    var last := Later(served, |before| + 1);
    QuietWires(NEW_CONNECTION, before, served, x.sid);
    var c1 := RunFrames(NEW_CONNECTION, first).value;
    assert Inputs(AllMeant([x]), served) == Inputs([Meant(x)], served);
    MeantFields(x);
    SingleFrame(c1, Meant(x), served);
    UnusedFrames(before, x.sid, served);
    NewStreamIsEmpty(first, x.sid);
    NothingIsSilent(c1.table);
    HeadersArrive(c1, Inputs(AllMeant([x]), served), x.sid, block, hs);
    SurvivorsRun(c1, [x], served, more);
    var c2 := RunFrames(c1, Inputs(AllKept([x]), more)).value;
    QuietWires(c2, after, last, x.sid);
    WiresCut(rs, wss);
    AllKeptConcat(before + [x], after);
    AllKeptConcat(before, [x]);
    InputsConcat(AllKept(before + [x]), AllKept(after), served);
    InputsConcat(AllKept(before), AllKept([x]), served);
    RunConcat(NEW_CONNECTION, first, Inputs(AllKept([x]), more));
    RunConcat(NEW_CONNECTION, Inputs(AllKept(before + [x]), served), Inputs(AllKept(after), last));
  }

  lemma MeantFields(x: Wire)
    ensures Meant(x).kind == x.kind && Meant(x).sid == x.sid && Meant(x).payload == x.fragment
  {
  }
}
