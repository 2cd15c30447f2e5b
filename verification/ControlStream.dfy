/** What a peer reads on stream 0: the server's SETTINGS, and acknowledgements of its own SETTINGS and
    PING frames. */
module ControlStream {
  import opened Bytes
  import opened Frames
  import opened HpackEncoder
  import opened HpackDecoder
  import opened Serving
  import opened Streams
  import opened StreamRuns
  import opened ThreadPool
  import opened OrderedWrites
  import opened Conversations
  import opened Replies
  import SettingsCodec
  import opened Exchanges

  /** What a frame is answered with on stream 0: SETTINGS (4) that are whole and in range with an
      acknowledgement, PING (6) with one that repeats its payload. */
  ghost function ControlsFor(f: Frame): seq<Frame> {
    if f.sid != 0 then []
    else if f.kind == 4 && !f.Has(ACK) && AllItemsPass(f.payload) then [NewFrame(4, 0x01, 0, [])]
    else if f.kind == 6 then [NewFrame(6, 0x01, 0, f.payload)]
    else []
  }

  ghost predicate AllItemsPass(payload: seq<byte>) {
    |payload| % 6 == 0 && forall i: nat | 6 * i + 6 <= |payload| :: SettingsCodec.Passes(payload, i)
  }

  ghost function RunControls(fs: seq<Frame>): seq<Frame> {
    if |fs| == 0 then [] else RunControls(fs[..|fs| - 1]) + ControlsFor(fs[|fs| - 1])
  }

  /** What the peer should read on stream 0: SETTINGS for a preface, and these answers. */
  ghost function ReadControls(rs: seq<Reading>): seq<Frame> {
    if |rs| == 0 then []
    else
      var r := rs[|rs| - 1];
      ReadControls(rs[..|rs| - 1])
      + ((if PREFACE <= r.buffer then [NewFrame(4, 0x00, 0, [])] else []) + RunControls(Cut(r).frames))
  }

  ghost predicate AllOn(items: seq<Item>, sid: uint32) {
    forall item <- items, f <- item.frames :: f.sid == sid
  }

  lemma {:induction false} FramesAllOn(items: seq<Item>, sid: uint32)
    requires AllOn(items, sid)
    ensures forall f <- FramesOf(items) :: f.sid == sid
  {
    if |items| > 0 {
      FramesAllOn(items[..|items| - 1], sid);
      assert items[|items| - 1] in items;
    }
  }

  lemma RequestOnStream(w: Setting, rq: Request, results: Results)
    ensures AllOn(RequestItems(w, rq, results), rq.sid)
  {
    hide ResponseBuffers, ResponseFrames, AllShort, NoneFails, FirstValue;
    var none := ErrorHeaders(404, w.notFound);
    assert |none| == 5;
    if AllShort(none) && |w.notFound.content| > 0 {
      ResponseOnStream(none, w.notFound.content, rq.sid);
    }
    var path := FirstValue(rq.headers, Ascii(":path"));
    if path.Some? {
      var page := w.site(path.value);
      var hs := PageHeaders(path.value, page);
      assert |hs| == 6;
      if |page.content| > 0 && AllShort(hs) {
        ResponseOnStream(hs, page.content, rq.sid);
      }
    }
  }

  lemma FrameControls(w: Setting, c: Connection, f: Frame, results: Results)
    requires |f.payload| <= MAX_PAYLOAD
    requires forall rq <- FrameRequests(c, f) :: rq.sid != 0
    ensures On(0, FramesOf(FrameItems(w, c, f, results))) == ControlsFor(f)
  {
    hide RequestItems, FramesOf, On, DecodeBlock, Frame.Has, SettingsCodec.DecodeSettings, SettingsCodec.Passes;
    hide EncodeFrame;
    SettingsCodec.AcceptedExactly(SettingsCodec.DEFAULTS, f.payload);
    var requests := FrameRequests(c, f);
    NoFrames();
    OnOneStream(0, [], 0);
    var items := FrameItems(w, c, f, results);
    if |requests| > 0 {
      assert requests[0] in requests;
      RequestOnStream(w, requests[0], results);
      FramesAllOn(items, requests[0].sid);
      OnOneStream(0, FramesOf(items), requests[0].sid);
    } else if |items| > 0 {
      assert items == [items[0]];
      FramesOfOne(items[0]);
      OnOneStream(0, items[0].frames, 0);
    }
  }

  predicate NoneOnControl(requests: seq<Request>) {
    forall rq <- requests :: rq.sid != 0
  }

  lemma {:induction false} RunControlsSent(w: Setting, c: Connection, inputs: seq<Input>, fs: seq<Frame>,
                                           results: nat -> Results)
    requires AllSmallPayloads(inputs) && RunFrames(c, inputs).Some? && NoneOnControl(Requested(c, inputs))
    requires |fs| == |inputs| && forall i :: 0 <= i < |fs| ==> inputs[i].frame == fs[i]
    ensures On(0, FramesOf(RunItems(w, c, inputs, results))) <= RunControls(fs)
    ensures !Dies(w, c, inputs, results) ==> On(0, FramesOf(RunItems(w, c, inputs, results))) == RunControls(fs)
  {
    hide FrameItems, FrameRequests, FrameAborts, After, On, FramesOf, ControlsFor;
    if |inputs| == 0 {
      NoFrames();
      OnOneStream(0, [], 0);
    } else {
      var n := |inputs| - 1;
      var c1, f := RunFrames(c, inputs[..n]).value, inputs[n].frame;
      RunControlsSent(w, c, inputs[..n], fs[..n], results);
      var before, last := RunItems(w, c, inputs[..n], results), FrameItems(w, c1, f, results(n));
      if Dies(w, c, inputs[..n], results) {
        assert before + [] == before;
      } else {
        FrameControls(w, c1, f, results(n));
        FramesOfConcat(before, last);
        OnConcat(0, FramesOf(before), FramesOf(last));
      }
    }
  }

  lemma {:induction false} RequestedConcat(c: Connection, a: seq<Input>, b: seq<Input>)
    requires RunFrames(c, a + b).Some?
    ensures RunFrames(c, a).Some? && RunFrames(RunFrames(c, a).value, b) == RunFrames(c, a + b)
    ensures Requested(c, a + b) == Requested(c, a) + Requested(RunFrames(c, a).value, b)
  {
    hide After, FrameRequests;
    RunConcat(c, a, b);
    if |b| == 0 {
      assert a + b == a;
    } else {
      var n := |b| - 1;
      assert (a + b)[..|a| + n] == a + b[..n];
      RunConcat(c, a, b[..n]);
      RequestedConcat(c, a, b[..n]);
    }
  }

  lemma MoreControls(w: Setting, c: Connection, earlier: seq<Input>, r: Reading, inputs: seq<Input>,
                     results: nat -> Results)
    requires RunFrames(c, earlier).Some? && RunFrames(RunFrames(c, earlier).value, inputs).Some?
    requires AllSmallPayloads(inputs) && NoneOnControl(Requested(RunFrames(c, earlier).value, inputs))
    requires |inputs| == |Cut(r).frames| && forall i :: 0 <= i < |inputs| ==> inputs[i].frame == Cut(r).frames[i]
    requires !Dies(w, c, earlier, results)
    ensures var sent := On(0, FramesOf(MoreItems(w, c, earlier, r, inputs, results)));
            var due := (if PREFACE <= r.buffer then [NewFrame(4, 0x00, 0, [])] else []) + RunControls(Cut(r).frames);
            && sent <= due
            && (!Dies(w, RunFrames(c, earlier).value, inputs, LaterResults(results, |earlier|)) ==> sent == due)
  {
    hide RunFrames, Requested, NoneOnControl, Dies, RunItems, RunControls, On, FramesOf, Cut, AllSmallPayloads, PREFACE;
    var c1, later := RunFrames(c, earlier).value, LaterResults(results, |earlier|);
    RunControlsSent(w, c1, inputs, Cut(r).frames, later);
    FramesOfConcat(Greeting(w, r), RunItems(w, c1, inputs, later));
    OnConcat(0, FramesOf(Greeting(w, r)), FramesOf(RunItems(w, c1, inputs, later)));
    NoFrames();
    OnOneStream(0, [], 0);
    if PREFACE <= r.buffer {
      var settings := ControlItem(w.client, NewFrame(SETTINGS_FRAME, 0, 0, []), r.greeting);
      FramesOfOne(settings);
      OnOneStream(0, settings.frames, 0);
    }
  }

  lemma {:induction false} ReadControlsSent(w: Setting, c: Connection, rs: seq<Reading>, served: nat -> bool,
                                            results: nat -> Results)
    requires IsDefined(c, rs, served) && NoneOnControl(Requested(c, Inputs(ReadFrames(rs), served)))
    ensures On(0, FramesOf(ReadItems(w, c, rs, served, results))) <= ReadControls(rs)
    ensures !Dies(w, c, Inputs(ReadFrames(rs), served), results) ==>
              On(0, FramesOf(ReadItems(w, c, rs, served, results))) == ReadControls(rs)
  {
    hide IsDefined, RunFrames, Requested, Dies, On, FramesOf, MoreItems, RunControls, Cut, PREFACE, LegalInputs;
    hide AllSmallPayloads;
    if |rs| == 0 {
      NoFrames();
      OnOneStream(0, [], 0);
    } else {
      LastRead(c, rs, served);
      var init, last := rs[..|rs| - 1], rs[|rs| - 1];
      var earlier, inputs := EarlierInputs(rs, served), LastInputs(rs, served);
      RequestedConcat(c, earlier, inputs);
      DiesConcat(w, c, earlier, inputs, results);
      ReadControlsSent(w, c, init, served, results);
      var more := MoreItems(w, c, earlier, last, inputs, results);
      if Dies(w, c, earlier, results) {
        assert more == [] by {
          NothingMore(w, c, earlier, last, inputs, results);
        }
        assert ReadItems(w, c, init, served, results) + [] == ReadItems(w, c, init, served, results);
      } else {
        MoreControls(w, c, earlier, last, inputs, results);
        FramesOfConcat(ReadItems(w, c, init, served, results), more);
        OnConcat(0, FramesOf(ReadItems(w, c, init, served, results)), FramesOf(more));
      }
    }
  }

  lemma NothingMore(w: Setting, c: Connection, earlier: seq<Input>, r: Reading, inputs: seq<Input>,
                    results: nat -> Results)
    requires RunFrames(c, earlier).Some? && RunFrames(RunFrames(c, earlier).value, inputs).Some?
    requires AllSmallPayloads(inputs) && Dies(w, c, earlier, results)
    ensures MoreItems(w, c, earlier, r, inputs, results) == []
  {
  }

  /** If no write falls short, only a request that makes the process abort anyway does so. */
  lemma OnlyCrashes(w: Setting, rs: seq<Reading>, served: nat -> bool, results: nat -> Results)
    requires IsDefined(NEW_CONNECTION, rs, served)
    requires forall item <- ReadItems(w, NEW_CONNECTION, rs, served, results) :: Sendable(item)
    requires AllTaken(ReadItems(w, NEW_CONNECTION, rs, served, results))
    ensures Dies(w, NEW_CONNECTION, Inputs(ReadFrames(rs), served), results) ==> SomeCrashes(w, RequestsOf(rs, served))
  {
    hide *;
    var inputs, requests := Inputs(ReadFrames(rs), served), RequestsOf(rs, served);
    InputsOf(rs, served);
    ReadAnswers(w, NEW_CONNECTION, rs, served, results);
    var at := RequestsAnswered(w, NEW_CONNECTION, inputs, results);
    var died := Dies(w, NEW_CONNECTION, inputs, results);
    AnswersTaken(ReadItems(w, NEW_CONNECTION, rs, served, results));
    AsMany(w, requests, results, at, died);
    AnswersByStream(w, requests, results, at, 0);
    DiedOfLast(w, requests, results, at, died);
  }

  lemma DiedOfLast(w: Setting, requests: seq<Request>, results: nat -> Results, at: seq<nat>, died: bool)
    requires UpToAbort(w, requests, results, at, died)
    requires forall k: nat :: k < |at| ==> (AbortsAt(w, requests, results, at, k) <==> Crashes(w, requests[k]))
    ensures died ==> SomeCrashes(w, requests)
  {
    hide Crashes, AbortsAt;
  }

  /** When every write took its whole buffer, and no request was made on stream 0, the peer reads
      there SETTINGS for its preface, an acknowledgement for each SETTINGS frame of its own that is
      in order, and for each PING one that repeats its payload; if a request made the process abort,
      the first of these. */
  lemma ControlsAnswered(w: Setting, rs: seq<Reading>, served: nat -> bool, results: nat -> Results,
                         items: seq<Item>, n: nat, events: seq<Event>, s: System)
    requires IsDefined(NEW_CONNECTION, rs, served) && NoneOnControl(RequestsOf(rs, served))
    requires forall item <- items :: Sendable(item)
    requires ItemsFor(w.client, items) == ReadItems(w, NEW_CONNECTION, rs, served, results)
    requires Reaches(AllCalls(items), System(Start(n), Outside), events, s)
    requires s.phase.Outside? && |s.pool.submitted| == |AllCalls(items)|
    ensures forall t <- s.pool.done :: t.id < |AllCalls(items)|
    ensures var received := SentTo(w.client, OrderedWrites.Written(AllCalls(items), s.pool.done));
            AllTaken(ItemsFor(w.client, items)) ==>
              var read := On(0, Segment(received).frames);
              && read <= ReadControls(rs)
              && (!SomeCrashes(w, RequestsOf(rs, served)) ==> read == ReadControls(rs))
  {
    hide *;
    var at, died := ConnectionAnswered(w, rs, served, results, items, n, events, s);
    InputsOf(rs, served);
    ReadControlsSent(w, NEW_CONNECTION, rs, served, results);
    if AllTaken(ItemsFor(w.client, items)) {
      OnlyCrashes(w, rs, served, results);
    }
  }

  /** A PING, from its bytes. */
  lemma PingIsRepeated(x: Wire)
    requires LegalWire(x) && x.kind == 6 && x.sid == 0
    ensures ControlsFor(KeptOf(x)) == [NewFrame(6, 0x01, 0, x.fragment)]
  {
    hide Frame.Has;
    KeptFields(x);
  }
}
