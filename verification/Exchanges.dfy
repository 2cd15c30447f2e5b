/** Whole connections: everything the server reads from a peer, and what the peer reads of the
    answers on each of its streams. */
module Exchanges {
  import opened Bytes
  import opened Frames
  import opened HeaderTable
  import opened HpackEncoder
  import opened Serving
  import opened Streams
  import opened StreamRuns
  import opened ThreadPool
  import opened OrderedWrites
  import opened Conversations
  import opened Replies

  // ---------------------------------------------------------------- reads

  /** What `doRequest` finds in its buffer after a read; `greeting` is the result of writing the
      SETTINGS frame, if the buffer makes it send one. */
  datatype ReadBuffer = ReadBuffer(buffer: seq<byte>, bytesRead: nat, greeting: int)

  type Reading = r: ReadBuffer | r.bytesRead <= |r.buffer| witness ReadBuffer([], 0, 0)

  function Cut(r: Reading): Segments {
    Segment(BehindPreface(r.buffer, r.bytesRead))
  }

  /** The frames of all reads, in order. */
  function ReadFrames(rs: seq<Reading>): seq<Frame> {
    if |rs| == 0 then [] else ReadFrames(rs[..|rs| - 1]) + Cut(rs[|rs| - 1]).frames
  }

  /** No read and no frame meets undefined behaviour. */
  ghost predicate IsDefined(c: Connection, rs: seq<Reading>, served: nat -> bool) {
    (forall r <- rs :: Cut(r).defined) && RunFrames(c, Inputs(ReadFrames(rs), served)).Some?
  }

  predicate AllLegal(fs: seq<Frame>) {
    forall f <- fs :: |f.payload| <= MAX_PAYLOAD && f.sid < 0x8000_0000
  }

  lemma FrameLegal(b: seq<byte>)
    ensures |DecodeFrame(b).1.payload| <= MAX_PAYLOAD && DecodeFrame(b).1.sid < 0x8000_0000
  {
    hide FromBytes31, CanBePadded, Frame.Has;
  }

  lemma {:induction false} SegmentLegal(b: seq<byte>)
    ensures AllLegal(Segment(b).frames)
    decreases |b|
  {
    hide DecodeFrame, FromBytes24;
    FrameLegal(b);
    if |b| >= 3 && 9 + FromBytes24(b) < |b| {
      SegmentLegal(b[9 + FromBytes24(b)..]);
    }
  }

  lemma {:induction false} ReadFramesLegal(rs: seq<Reading>)
    ensures AllLegal(ReadFrames(rs))
  {
    hide Cut;
    if |rs| > 0 {
      var last := rs[|rs| - 1];
      ReadFramesLegal(rs[..|rs| - 1]);
      CutLegal(last);
    }
  }

  lemma CutLegal(r: Reading)
    ensures AllLegal(Cut(r).frames)
  {
    hide Segment, AllLegal;
    SegmentLegal(BehindPreface(r.buffer, r.bytesRead));
  }

  lemma LegalFrames(fs: seq<Frame>, served: nat -> bool)
    requires AllLegal(fs)
    ensures LegalInputs(Inputs(fs, served)) && AllSmallPayloads(Inputs(fs, served))
  {
    forall i | 0 <= i < |fs|
      ensures |fs[i].payload| <= MAX_PAYLOAD && fs[i].sid < 0x8000_0000
    {
      assert fs[i] in fs;
    }
  }

  function EarlierInputs(rs: seq<Reading>, served: nat -> bool): seq<Input>
    requires |rs| > 0
  {
    Inputs(ReadFrames(rs[..|rs| - 1]), served)
  }

  function LastInputs(rs: seq<Reading>, served: nat -> bool): seq<Input>
    requires |rs| > 0
  {
    Inputs(Cut(rs[|rs| - 1]).frames, Later(served, |ReadFrames(rs[..|rs| - 1])|))
  }

  /** The last read is handled in the state that the others led to. */
  lemma LastRead(c: Connection, rs: seq<Reading>, served: nat -> bool)
    requires |rs| > 0 && IsDefined(c, rs, served)
    ensures IsDefined(c, rs[..|rs| - 1], served)
    ensures Inputs(ReadFrames(rs), served) == EarlierInputs(rs, served) + LastInputs(rs, served)
    ensures RunFrames(c, EarlierInputs(rs, served)).Some?
    ensures RunFrames(RunFrames(c, EarlierInputs(rs, served)).value, LastInputs(rs, served))
         == RunFrames(c, Inputs(ReadFrames(rs), served))
    ensures RunFrames(c, Inputs(ReadFrames(rs), served)).Some?
    ensures LegalInputs(EarlierInputs(rs, served)) && AllSmallPayloads(EarlierInputs(rs, served))
    ensures LegalInputs(LastInputs(rs, served)) && AllSmallPayloads(LastInputs(rs, served))
  {
    hide Cut, RunFrames, AllLegal, LegalInputs;
    var init, last := rs[..|rs| - 1], rs[|rs| - 1];
    InputsConcat(ReadFrames(init), Cut(last).frames, served);
    RunConcat(c, EarlierInputs(rs, served), LastInputs(rs, served));
    ReadFramesLegal(init);
    CutLegal(last);
    LegalFrames(ReadFrames(init), served);
    LegalFrames(Cut(last).frames, Later(served, |ReadFrames(init)|));
  }

  lemma InputsConcat(a: seq<Frame>, b: seq<Frame>, served: nat -> bool)
    ensures Inputs(a + b, served) == Inputs(a, served) + Inputs(b, Later(served, |a|))
  {
  }

  // ---------------------------------------------------------------- what they lead to

  /** A SETTINGS frame is sent for a preface. */
  function Greeting(w: Setting, r: Reading): seq<Item> {
    if PREFACE <= r.buffer then [ControlItem(w.client, NewFrame(SETTINGS_FRAME, 0, 0, []), r.greeting)] else []
  }

  /** What a read adds, behind the frames of `earlier`, unless the process has aborted. */
  ghost function MoreItems(w: Setting, c: Connection, earlier: seq<Input>, r: Reading, inputs: seq<Input>,
                           results: nat -> Results): seq<Item>
    requires RunFrames(c, earlier).Some? && RunFrames(RunFrames(c, earlier).value, inputs).Some?
    requires AllSmallPayloads(inputs)
  {
    if Dies(w, c, earlier, results) then []
    else Greeting(w, r) + RunItems(w, RunFrames(c, earlier).value, inputs, LaterResults(results, |earlier|))
  }

  /** Everything sent to the peer over some reads; `results(i)` are those of the i-th frame. */
  ghost function ReadItems(w: Setting, c: Connection, rs: seq<Reading>, served: nat -> bool,
                           results: nat -> Results): seq<Item>
    requires IsDefined(c, rs, served)
  {
    if |rs| == 0 then []
    else
      LastRead(c, rs, served);
      ReadItems(w, c, rs[..|rs| - 1], served, results)
      + MoreItems(w, c, EarlierInputs(rs, served), rs[|rs| - 1], LastInputs(rs, served), results)
  }

  lemma GreetingSendable(w: Setting, r: Reading)
    ensures forall item <- Greeting(w, r) :: Sendable(item) && item.client == w.client
    ensures forall item <- Greeting(w, r) :: IsControl(item)
  {
    hide Sendable, EncodeFrame, PREFACE;
    ControlSendable(w.client, NewFrame(SETTINGS_FRAME, 0, 0, []), r.greeting);
  }

  /** All of it can be sent, and goes to this client. */
  lemma {:induction false} ReadSendable(w: Setting, c: Connection, rs: seq<Reading>, served: nat -> bool,
                                        results: nat -> Results)
    requires IsDefined(c, rs, served)
    ensures forall item <- ReadItems(w, c, rs, served, results) :: Sendable(item) && item.client == w.client
  {
    hide Sendable, Greeting, IsDefined, Dies, RunItems, RunFrames, EarlierInputs, LastInputs, LegalInputs;
    if |rs| > 0 {
      LastRead(c, rs, served);
      ReadSendable(w, c, rs[..|rs| - 1], served, results);
      GreetingSendable(w, rs[|rs| - 1]);
      var earlier := EarlierInputs(rs, served);
      RunSendable(w, RunFrames(c, earlier).value, LastInputs(rs, served), LaterResults(results, |earlier|));
    }
  }

  /** Where the reads end makes no difference to the answers. */
  lemma {:induction false} ReadAnswers(w: Setting, c: Connection, rs: seq<Reading>, served: nat -> bool,
                                       results: nat -> Results)
    requires IsDefined(c, rs, served)
    ensures AllSmallPayloads(Inputs(ReadFrames(rs), served))
    ensures Answers(ReadItems(w, c, rs, served, results))
         == Answers(RunItems(w, c, Inputs(ReadFrames(rs), served), results))
  {
    hide Greeting, IsDefined, Dies, RunItems, RunFrames, EarlierInputs, LastInputs, LegalInputs, Answers, IsControl;
    hide AllSmallPayloads, MoreItems;
    if |rs| == 0 {
      NothingRead(w, c, served, results);
    } else {
      LastRead(c, rs, served);
      var init, last := rs[..|rs| - 1], rs[|rs| - 1];
      var earlier, inputs := EarlierInputs(rs, served), LastInputs(rs, served);
      ReadAnswers(w, c, init, served, results);
      MoreAnswers(w, c, earlier, last, inputs, results);
      AnswersConcat(ReadItems(w, c, init, served, results), MoreItems(w, c, earlier, last, inputs, results));
      assert EarlierInputs(rs, served) == Inputs(ReadFrames(init), served) by {
        EarlierIs(rs, served);
      }
    }
  }

  lemma MoreAnswers(w: Setting, c: Connection, earlier: seq<Input>, r: Reading, inputs: seq<Input>,
                    results: nat -> Results)
    requires RunFrames(c, earlier + inputs).Some? && AllSmallPayloads(earlier) && AllSmallPayloads(inputs)
    ensures RunFrames(c, earlier).Some? && RunFrames(RunFrames(c, earlier).value, inputs).Some?
    ensures AllSmallPayloads(earlier + inputs)
    ensures Answers(RunItems(w, c, earlier + inputs, results))
         == Answers(RunItems(w, c, earlier, results)) + Answers(MoreItems(w, c, earlier, r, inputs, results))
  {
    hide Greeting, Dies, RunItems, RunFrames, Answers, IsControl, AllSmallPayloads;
    ItemsConcat(w, c, earlier, inputs, results);
    var first := RunItems(w, c, earlier, results);
    if Dies(w, c, earlier, results) {
      AnswersConcat(first, []);
    } else {
      var more := RunItems(w, RunFrames(c, earlier).value, inputs, LaterResults(results, |earlier|));
      AnswersConcat(first, more);
      GreetingSendable(w, r);
      NoAnswers(Greeting(w, r));
      AnswersConcat(Greeting(w, r), more);
      assert [] + Answers(more) == Answers(more);
    }
  }

  lemma EarlierIs(rs: seq<Reading>, served: nat -> bool)
    requires |rs| > 0
    ensures EarlierInputs(rs, served) == Inputs(ReadFrames(rs[..|rs| - 1]), served)
  {
  }

  lemma NothingRead(w: Setting, c: Connection, served: nat -> bool, results: nat -> Results)
    ensures RunFrames(c, Inputs([], served)).Some?
    ensures AllSmallPayloads(Inputs([], served))
    ensures RunItems(w, c, Inputs([], served), results) == []
  {
  }

  // ---------------------------------------------------------------- items and their frames

  lemma {:induction false} FramesOfConcat(a: seq<Item>, b: seq<Item>)
    ensures FramesOf(a + b) == FramesOf(a) + FramesOf(b)
  {
    if |b| == 0 {
      assert a + b == a;
    } else {
      FramesOfConcat(a, b[..|b| - 1]);
      assert (a + b)[..|a + b| - 1] == a + b[..|b| - 1];
      ConcatAssociative(FramesOf(a), FramesOf(b[..|b| - 1]), b[|b| - 1].frames);
    }
  }

  lemma FramesOfOne(item: Item)
    ensures FramesOf([item]) == item.frames
  {
    assert [item][..0] == [];
    assert FramesOf([item]) == [] + item.frames;
  }

  /** Whole writes do not fail. */
  lemma TakenIsAnswered(w: Setting, path: seq<byte>, sid: uint32, results: Results)
    requires forall b <- PathItem(w, path, sid, results).buffers :: |b| > 0
    requires TakenWhole(PathItem(w, path, sid, results).buffers, PathItem(w, path, sid, results).taken)
    ensures NoneFails(PathItem(w, path, sid, results).buffers, results.page)
  {
    hide ResponseBuffers, ResponseFrames, PageHeaders;
    var item := PathItem(w, path, sid, results);
    forall i: nat | i < |item.buffers|
      ensures results.page(i) >= 0
    {
      assert item.taken[i] >= |item.buffers[i]|;
    }
  }

  lemma AllTakenHas(items: seq<Item>, item: Item)
    requires (forall x <- items :: Sendable(x)) && AllTaken(items) && item in items
    ensures |item.taken| == |item.buffers| && TakenWhole(item.buffers, item.taken)
    ensures forall b <- item.buffers :: |b| > 0
  {
    hide Plain;
  }

  // ---------------------------------------------------------------- one stream

  /** The frames on one stream, in order. */
  function On(sid: uint32, fs: seq<Frame>): seq<Frame> {
    if |fs| == 0 then []
    else
      var last := fs[|fs| - 1];
      On(sid, fs[..|fs| - 1]) + if last.sid == sid then [last] else []
  }

  lemma {:induction false} OnConcat(sid: uint32, a: seq<Frame>, b: seq<Frame>)
    ensures On(sid, a + b) == On(sid, a) + On(sid, b)
  {
    if |b| == 0 {
      assert a + b == a;
    } else {
      var n := |b| - 1;
      OnConcat(sid, a, b[..n]);
      assert (a + b)[..|a| + n] == a + b[..n];
    }
  }

  /** Frames of one stream. */
  lemma {:induction false} OnOneStream(sid: uint32, fs: seq<Frame>, other: uint32)
    requires forall f <- fs :: f.sid == other
    ensures On(sid, fs) == if sid == other then fs else []
  {
    if |fs| > 0 {
      OnOneStream(sid, fs[..|fs| - 1], other);
      assert fs[|fs| - 1] in fs;
    }
  }

  /** Control frames are on no stream of the peer's. */
  lemma {:induction false} ControlsOnNone(sid: uint32, items: seq<Item>)
    requires sid != 0
    ensures On(sid, FramesOf(items)) == On(sid, FramesOf(Answers(items)))
  {
    hide On;
    if |items| > 0 {
      var init, last := items[..|items| - 1], items[|items| - 1];
      ControlsOnNone(sid, init);
      OnConcat(sid, FramesOf(init), last.frames);
      if IsControl(last) {
        OnOneStream(sid, last.frames, 0);
        assert Answers(init) + [] == Answers(init);
      } else {
        FramesOfConcat(Answers(init), [last]);
        FramesOfOne(last);
        OnConcat(sid, FramesOf(Answers(init)), last.frames);
      }
    }
  }

  /** The request makes the process abort, even if no write fails. */
  predicate Crashes(w: Setting, rq: Request) {
    var path := FirstValue(rq.headers, Ascii(":path"));
    path.Some? &&
    var page := w.site(path.value);
    if |page.content| > 0 then !AllShort(PageHeaders(path.value, page))
    else |w.notFound.content| > 0 && !AllShort(ErrorHeaders(404, w.notFound))
  }

  /** The frames that answer a request if no write fails: the page, the error page if there is no
      page, or nothing at all. */
  function AnswerFrames(w: Setting, rq: Request): seq<Frame> {
    match FirstValue(rq.headers, Ascii(":path"))
    case None => []
    case Some(path) =>
      var page := w.site(path);
      if Crashes(w, rq) || (|page.content| == 0 && |w.notFound.content| == 0) then []
      else if |page.content| == 0 then ResponseFrames(ErrorHeaders(404, w.notFound), w.notFound.content, rq.sid)
      else ResponseFrames(PageHeaders(path, page), page.content, rq.sid)
  }

  lemma ResponseOnStream(hs: seq<Header>, content: seq<byte>, sid: uint32)
    requires AllShort(hs) && |hs| <= 17 && |content| > 0
    ensures forall f <- ResponseFrames(hs, content, sid) :: f.sid == sid
  {
    hide EncodeBlock, ResponseFrames, AllShort;
    ResponseFramesAre(hs, content, sid);
    BodyFramesAre(content, sid);
    BodyOnStream(ResponseFrames(hs, content, sid)[1..], content, sid);
  }

  lemma BodyOnStream(data: seq<Frame>, content: seq<byte>, sid: uint32)
    requires IsBody(data, content, sid)
    ensures forall f <- data :: f.sid == sid
  {
  }

  lemma AnswerOnStream(w: Setting, rq: Request)
    ensures forall f <- AnswerFrames(w, rq) :: f.sid == rq.sid
  {
    hide ResponseFrames, AllShort, FirstValue;
    var path := FirstValue(rq.headers, Ascii(":path"));
    if path.Some? && !Crashes(w, rq) {
      var page := w.site(path.value);
      assert |PageHeaders(path.value, page)| == 6 && |ErrorHeaders(404, w.notFound)| == 5;
      if |page.content| > 0 {
        ResponseOnStream(PageHeaders(path.value, page), page.content, rq.sid);
      } else if |w.notFound.content| > 0 {
        ResponseOnStream(ErrorHeaders(404, w.notFound), w.notFound.content, rq.sid);
      }
    }
  }

  /** Without failing writes the items for a request are these frames. */
  lemma WholeAnswer(w: Setting, rq: Request, results: Results)
    requires forall item <- RequestItems(w, rq, results) :: Sendable(item)
    requires AllTaken(RequestItems(w, rq, results))
    ensures FramesOf(RequestItems(w, rq, results)) == AnswerFrames(w, rq)
    ensures Aborts(w, rq, results) <==> Crashes(w, rq)
  {
    hide ResponseFrames, ResponseBuffers, AllShort, FirstValue, PageHeaders, ErrorHeaders, FramesOf, NoneFails;
    hide AllTaken, Sendable;
    var items := RequestItems(w, rq, results);
    var path := FirstValue(rq.headers, Ascii(":path"));
    assert FramesOf([]) == [] by {
      NoFrames();
    }
    if path.Some? {
      var page := w.site(path.value);
      FramesOfOne(ErrorItem(w, rq.sid, results));
      if |page.content| > 0 && AllShort(PageHeaders(path.value, page)) {
        var item := PathItem(w, path.value, rq.sid, results);
        assert items[0] == item;
        AllTakenHas(items, item);
        TakenIsAnswered(w, path.value, rq.sid, results);
        assert [item] + [] == [item];
        FramesOfOne(item);
      }
    }
  }

  lemma NoFrames()
    ensures FramesOf([]) == []
  {
  }

  // ---------------------------------------------------------------- all requests of a stream

  /** How many requests are taken up: those up to the first that aborts, or all. */
  function TakenUp(w: Setting, requests: seq<Request>): (m: nat)
    ensures m <= |requests|
  {
    if |requests| == 0 then 0
    else if Crashes(w, requests[0]) then 1
    else 1 + TakenUp(w, requests[1..])
  }

  predicate SomeCrashes(w: Setting, requests: seq<Request>) {
    exists i :: 0 <= i < |requests| && Crashes(w, requests[i])
  }

  function AnswersOn(w: Setting, sid: uint32, requests: seq<Request>): seq<Frame> {
    if |requests| == 0 then []
    else
      var n := |requests| - 1;
      AnswersOn(w, sid, requests[..n]) + if requests[n].sid == sid then AnswerFrames(w, requests[n]) else []
  }

  /** What the peer should read on a stream, for the requests of all its streams. */
  function Expected(w: Setting, sid: uint32, requests: seq<Request>): seq<Frame> {
    AnswersOn(w, sid, requests[..TakenUp(w, requests)])
  }

  lemma {:induction false} TakenUpIs(w: Setting, requests: seq<Request>, m: nat)
    requires m <= |requests| && forall k: nat :: k + 1 < m ==> !Crashes(w, requests[k])
    requires m < |requests| ==> m > 0 && Crashes(w, requests[m - 1])
    ensures TakenUp(w, requests) == m
  {
    hide Crashes;
    if |requests| > 0 {
      assert m > 0;
      if m > 1 {
        assert !Crashes(w, requests[0]);
        TakenUpIs(w, requests[1..], m - 1);
      } else if |requests| > 1 {
        assert Crashes(w, requests[0]);
      }
    }
  }

  lemma AllTakenParts(a: seq<Item>, b: seq<Item>)
    requires (forall item <- a + b :: Sendable(item)) && AllTaken(a + b)
    ensures (forall item <- a :: Sendable(item)) && (forall item <- b :: Sendable(item))
    ensures AllTaken(a) && AllTaken(b)
  {
    hide Sendable, ItemTaken;
    assert forall item <- a :: item in a + b;
    assert forall item <- b :: item in a + b;
  }

  /** The answers, sorted by stream. */
  lemma {:induction false} AnswersByStream(w: Setting, requests: seq<Request>, results: nat -> Results, at: seq<nat>,
                                           sid: uint32)
    requires |at| <= |requests|
    requires forall item <- AnswersTo(w, requests, results, at) :: Sendable(item)
    requires AllTaken(AnswersTo(w, requests, results, at))
    ensures On(sid, FramesOf(AnswersTo(w, requests, results, at))) == AnswersOn(w, sid, requests[..|at|])
    ensures forall k: nat :: k < |at| ==> (AbortsAt(w, requests, results, at, k) <==> Crashes(w, requests[k]))
  {
    hide RequestItems, Sendable, AllTaken, On, FramesOf, AnswerFrames, Crashes, Aborts;
    if |at| == 0 {
      NoFrames();
      assert On(sid, []) == [] by {
        OnOneStream(sid, [], sid);
      }
    } else {
      var n := |at| - 1;
      var rq := requests[n];
      var earlier, last := AnswersTo(w, requests, results, at[..n]), RequestItems(w, rq, results(at[n]));
      AllTakenParts(earlier, last);
      AnswersByStream(w, requests, results, at[..n], sid);
      WholeAnswer(w, rq, results(at[n]));
      AnswerOnStream(w, rq);
      FramesOfConcat(earlier, last);
      OnConcat(sid, FramesOf(earlier), FramesOf(last));
      OnOneStream(sid, FramesOf(last), rq.sid);
      assert requests[..|at|][..n] == requests[..n];
      forall k: nat | k < |at|
        ensures AbortsAt(w, requests, results, at, k) <==> Crashes(w, requests[k])
      {
        assert k < n ==> (AbortsAt(w, requests, results, at, k) <==> AbortsAt(w, requests, results, at[..n], k));
      }
    }
  }

  lemma UpToCrash(w: Setting, requests: seq<Request>, results: nat -> Results, at: seq<nat>, died: bool)
    requires UpToAbort(w, requests, results, at, died)
    requires forall k: nat :: k < |at| ==> (AbortsAt(w, requests, results, at, k) <==> Crashes(w, requests[k]))
    ensures TakenUp(w, requests) == |at|
  {
    hide Aborts, Crashes, AbortsAt;
    forall k: nat | k + 1 < |at|
      ensures !Crashes(w, requests[k])
    {
      assert !AbortsAt(w, requests, results, at, k);
    }
    if |at| < |requests| {
      assert died && AbortsAt(w, requests, results, at, |at| - 1);
    }
    TakenUpIs(w, requests, |at|);
  }

  lemma AnswersTaken(items: seq<Item>)
    requires (forall item <- items :: Sendable(item)) && AllTaken(items)
    ensures (forall item <- Answers(items) :: Sendable(item)) && AllTaken(Answers(items))
  {
    hide Sendable, ItemTaken, IsControl;
  }

  /** What was sent, if no write fell short, sorted by stream. */
  lemma StreamsOfItems(w: Setting, items: seq<Item>, requests: seq<Request>, results: nat -> Results, at: seq<nat>,
                       died: bool, sid: uint32)
    requires (forall item <- items :: Sendable(item)) && AllTaken(items) && sid != 0
    requires UpToAbort(w, requests, results, at, died)
    requires Answers(items) == AnswersTo(w, requests, results, at)
    ensures On(sid, FramesOf(items)) == Expected(w, sid, requests)
  {
    hide Sendable, AllTaken, AnswersTo, Answers, On, FramesOf, AnswersOn, AbortsAt, TakenUp;
    AnswersTaken(items);
    ControlsOnNone(sid, items);
    AsMany(w, requests, results, at, died);
    AnswersByStream(w, requests, results, at, sid);
    UpToCrash(w, requests, results, at, died);
  }

  // ---------------------------------------------------------------- whole connections

  /** The requests of a connection: by `StreamRuns.RequestsOfRun`, what its streams hand on. */
  ghost function RequestsOf(rs: seq<Reading>, served: nat -> bool): seq<Request>
    requires IsDefined(NEW_CONNECTION, rs, served)
  {
    Requested(NEW_CONNECTION, Inputs(ReadFrames(rs), served))
  }

  /** Everything the server reads from a peer, in any number of reads, and everything it sends to
      it, through the pool and among the traffic of other clients. All requests are answered in
      turn, up to one that makes the process abort; what else is sent are control frames. The peer
      receives all bytes of this exactly when every write took its whole buffer. Then it reads
      whole frames, and on each of its streams the responses to the requests it made there, in
      order. */
  lemma ConnectionAnswered(w: Setting, rs: seq<Reading>, served: nat -> bool, results: nat -> Results,
                           items: seq<Item>, n: nat, events: seq<Event>, s: System)
    returns (at: seq<nat>, died: bool)
    requires IsDefined(NEW_CONNECTION, rs, served)
    requires forall item <- items :: Sendable(item)
    requires ItemsFor(w.client, items) == ReadItems(w, NEW_CONNECTION, rs, served, results)
    requires Reaches(AllCalls(items), System(Start(n), Outside), events, s)
    requires s.phase.Outside? && |s.pool.submitted| == |AllCalls(items)|
    ensures UpToAbort(w, RequestsOf(rs, served), results, at, died)
    ensures Answers(ItemsFor(w.client, items)) == AnswersTo(w, RequestsOf(rs, served), results, at)
    ensures forall t <- s.pool.done :: t.id < |AllCalls(items)|
    ensures forall f <- FramesOf(ItemsFor(w.client, items)) :: Plain(f)
    ensures var received := SentTo(w.client, OrderedWrites.Written(AllCalls(items), s.pool.done));
            var mine := ItemsFor(w.client, items);
            && (received == EncodePlain(FramesOf(mine)) <==> AllTaken(mine))
            && (AllTaken(mine) ==>
                  && Segment(received) == Segments(true, FramesOf(mine))
                  && forall sid: uint32 :: sid != 0 ==>
                       On(sid, Segment(received).frames) == Expected(w, sid, RequestsOf(rs, served)))
  {
    hide *;
    var inputs := Inputs(ReadFrames(rs), served);
    var mine := ItemsFor(w.client, items);
    InputsOf(rs, served);
    ReadAnswers(w, NEW_CONNECTION, rs, served, results);
    at := RequestsAnswered(w, NEW_CONNECTION, inputs, results);
    died := Dies(w, NEW_CONNECTION, inputs, results);
    AsMany(w, RequestsOf(rs, served), results, at, died);
    ResponsesArriveWhole(items, n, events, s, w.client);
    if AllTaken(mine) {
      forall sid: uint32 | sid != 0
        ensures On(sid, FramesOf(mine)) == Expected(w, sid, RequestsOf(rs, served))
      {
        StreamsOfItems(w, mine, RequestsOf(rs, served), results, at, died, sid);
      }
    }
  }

  lemma InputsOf(rs: seq<Reading>, served: nat -> bool)
    requires IsDefined(NEW_CONNECTION, rs, served)
    ensures RunFrames(NEW_CONNECTION, Inputs(ReadFrames(rs), served)).Some?
    ensures RequestsOf(rs, served) == Requested(NEW_CONNECTION, Inputs(ReadFrames(rs), served))
  {
  }
}
