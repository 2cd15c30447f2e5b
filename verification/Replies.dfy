/** What the server sends for the frames it receives: answers to requests, up to one that makes the
    process abort, and acknowledgements of settings and pings. */
module Replies {
  import opened Bytes
  import opened Frames
  import opened FrameBuffers
  import opened Integers
  import opened HeaderTable
  import opened HpackEncoder
  import opened HpackDecoder
  import opened Representations
  import opened Serving
  import opened Streams
  import opened StreamRuns
  import opened Arrivals
  import opened OrderedWrites
  import opened Conversations

  /** One client, the pages it can get, and the page for those there are not. */
  datatype Setting = Setting(client: int, site: seq<byte> -> Page, notFound: Page)

  /** The results of the writes made for one frame: for the buffers of the page, for those of the
      error page after it, and for a control frame. */
  datatype Results = Results(page: nat -> int, error: nat -> int, control: int)

  function Taken(buffers: seq<seq<byte>>, results: nat -> int): (taken: seq<int>)
    ensures |taken| == |buffers|
  {
    seq(|buffers|, i requires 0 <= i < |buffers| => results(i))
  }

  // ---------------------------------------------------------------- one request

  /** No write is reported as failed; a short one is not. */
  predicate NoneFails(buffers: seq<seq<byte>>, results: nat -> int) {
    forall i: nat :: i < |buffers| ==> results(i) >= 0
  }

  function ErrorItem(w: Setting, sid: uint32, results: Results): Item {
    var hs := ErrorHeaders(404, w.notFound);
    PageItem(w.client, hs, w.notFound.content, sid, Taken(ResponseBuffers(hs, w.notFound.content, sid), results.error))
  }

  function ErrorItems(w: Setting, sid: uint32, results: Results): seq<Item> {
    if |w.notFound.content| == 0 || !AllShort(ErrorHeaders(404, w.notFound)) then []
    else [ErrorItem(w, sid, results)]
  }

  function PathItem(w: Setting, path: seq<byte>, sid: uint32, results: Results): Item {
    var page := w.site(path);
    var hs := PageHeaders(path, page);
    PageItem(w.client, hs, page.content, sid, Taken(ResponseBuffers(hs, page.content, sid), results.page))
  }

  /** The request ends in the encoder's abort, for its page or for the error page. */
  predicate Aborts(w: Setting, rq: Request, results: Results) {
    var path := FirstValue(rq.headers, Ascii(":path"));
    path.Some? &&
    var page := w.site(path.value);
    var noPage := |w.notFound.content| > 0 && !AllShort(ErrorHeaders(404, w.notFound));
    if |page.content| == 0 then noPage
    else
      var hs := PageHeaders(path.value, page);
      !AllShort(hs) || (!NoneFails(ResponseBuffers(hs, page.content, rq.sid), results.page) && noPage)
  }

  /** The page is there and no write of it fails. */
  predicate Answered(w: Setting, rq: Request, results: Results) {
    var path := FirstValue(rq.headers, Ascii(":path"));
    path.Some? &&
    var page := w.site(path.value);
    |page.content| > 0
    && NoneFails(ResponseBuffers(PageHeaders(path.value, page), page.content, rq.sid), results.page)
  }

  /** A request without a path is not answered. Otherwise its page is sent, if there is one, and
      the error page if there is none or a write of the page fails. Only the first occurrence of
      `:path` counts. */
  function RequestItems(w: Setting, rq: Request, results: Results): seq<Item> {
    match FirstValue(rq.headers, Ascii(":path"))
    case None => []
    case Some(path) =>
      var page := w.site(path);
      var hs := PageHeaders(path, page);
      if |page.content| == 0 then ErrorItems(w, rq.sid, results)
      else if !AllShort(hs) then []
      else
        [PathItem(w, path, rq.sid, results)]
        + if NoneFails(ResponseBuffers(hs, page.content, rq.sid), results.page) then []
          else ErrorItems(w, rq.sid, results)
  }

  /** The buffers that are written: those up to the first whose write fails. */
  function Written(buffers: seq<seq<byte>>, taken: seq<int>): (ws: seq<seq<byte>>)
    ensures ws <= buffers && |ws| <= |taken|
  {
    if |buffers| == 0 || |taken| == 0 then []
    else [buffers[0]] + if taken[0] < 0 then [] else Written(buffers[1..], taken[1..])
  }

  /** These are the calls of `sendData` that an item stands for. */
  lemma {:induction false} CallsAreWritten(client: int, weight: int, buffers: seq<seq<byte>>, taken: seq<int>)
    requires |taken| == |buffers|
    ensures var calls := CallsFor(client, weight, buffers, taken);
            && |calls| == |Written(buffers, taken)|
            && forall i :: 0 <= i < |calls| ==> calls[i] == Call(client, Written(buffers, taken)[i], weight, taken[i])
  {
    if |buffers| > 0 && taken[0] >= 0 {
      CallsAreWritten(client, weight, buffers[1..], taken[1..]);
      var calls := CallsFor(client, weight, buffers, taken);
      var rest := CallsFor(client, weight, buffers[1..], taken[1..]);
      assert calls == [calls[0]] + rest;
      assert |rest| <= |taken[1..]|;
      assert forall i :: 1 <= i < |calls| ==> calls[i] == rest[i - 1] && taken[i] == taken[1..][i - 1];
    }
  }

  lemma {:induction false} InTurnIsWritten(
    buffers: seq<seq<byte>>, takes: nat -> int, sent: seq<seq<byte>>, ok: bool, k: nat)
    requires SentInTurn(buffers, takes, sent, ok) && k <= |sent| && (!ok ==> k < |sent|)
    ensures Written(buffers[k..], Taken(buffers, takes)[k..]) == sent[k..]
    decreases |sent| - k
  {
    var taken := Taken(buffers, takes);
    if k < |sent| {
      assert buffers[k..][1..] == buffers[k + 1..] && taken[k..][1..] == taken[k + 1..];
      assert sent[k..] == [sent[k]] + sent[k + 1..];
      assert sent[k] == buffers[k];
      if takes(k) >= 0 {
        InTurnIsWritten(buffers, takes, sent, ok, k + 1);
      }
    }
  }

  lemma TurnIsWritten(buffers: seq<seq<byte>>, takes: nat -> int, sent: seq<seq<byte>>, ok: bool)
    requires SentInTurn(buffers, takes, sent, ok)
    ensures sent == Written(buffers, Taken(buffers, takes))
    ensures ok <==> NoneFails(buffers, takes)
  {
    InTurnIsWritten(buffers, takes, sent, ok, 0);
    assert buffers[0..] == buffers && sent[0..] == sent;
    assert Taken(buffers, takes)[0..] == Taken(buffers, takes);
    assert !ok ==> takes(|sent| - 1) < 0;
  }

  function AllWritten(items: seq<Item>): seq<seq<byte>> {
    if |items| == 0 then [] else Written(items[0].buffers, items[0].taken) + AllWritten(items[1..])
  }

  lemma WrittenSingly(a: Item, b: Item)
    ensures AllWritten([]) == []
    ensures AllWritten([a]) == Written(a.buffers, a.taken)
    ensures AllWritten([a, b]) == Written(a.buffers, a.taken) + Written(b.buffers, b.taken)
  {
    hide Written;
    assert [a][1..] == [] && [a, b][1..] == [b] && [b][1..] == [];
    assert AllWritten([b]) == Written(b.buffers, b.taken) + [];
    assert AllWritten([a]) == Written(a.buffers, a.taken) + [];
  }

  /** `respondGet`, and `showErrorPage` if that returns false. */
  method AnswerRequest(w: Setting, rq: Request, results: Results)
    returns (aborted: bool, ok: bool, sent: seq<seq<byte>>)
    ensures aborted <==> Aborts(w, rq, results)
    ensures !aborted ==> sent == AllWritten(RequestItems(w, rq, results))
    ensures !aborted ==> (ok <==> Answered(w, rq, results))
  {
    hide ResponseBuffers, ResponseFrames, SentInTurn, PageHeaders, ErrorHeaders, FirstValue, AllShort;
    hide AllWritten, Written, NoneFails, Taken;
    ghost var none := ErrorItem(w, rq.sid, results);
    WrittenSingly(none, none);
    var path := FirstValue(rq.headers, Ascii(":path"));
    if path.None? {
      return false, false, [];
    }
    aborted, ok, sent := RespondGet(rq.headers, rq.sid, w.site, results.page);
    var page := w.site(path.value);
    ghost var first := PathItem(w, path.value, rq.sid, results);
    if |page.content| > 0 && !aborted {
      TurnIsWritten(first.buffers, results.page, sent, ok);
      WrittenSingly(first, none);
    }
    if aborted || ok {
      return;
    }
    var shown, more;
    aborted, shown, more := ShowErrorPage(404, w.notFound, rq.sid, results.error);
    if |w.notFound.content| > 0 && !aborted {
      TurnIsWritten(none.buffers, results.error, more, shown);
    }
    assert [] + more == more && sent + [] == sent;
    assert [first] + [none] == [first, none] && [first] + [] == [first];
    sent := sent + more;
  }

  // ---------------------------------------------------------------- one frame

  /** The acknowledgements that SETTINGS and PING frames get, and the answers to requests. */
  ghost function FrameItems(w: Setting, c: Connection, f: Frame, results: Results): seq<Item>
    requires |f.payload| <= MAX_PAYLOAD
  {
    if TakenOver(f) then
      [ControlItem(w.client, NewFrame(SETTINGS_FRAME, ACK, 0, []), results.control)]
    else if f.kind == PING_FRAME && f.sid == 0 then
      [ControlItem(w.client, NewFrame(PING_FRAME, ACK, 0, f.payload), results.control)]
    else
      var requests := FrameRequests(c, f);
      if |requests| == 0 then [] else RequestItems(w, requests[0], results)
  }

  predicate AllSmallPayloads(inputs: seq<Input>) {
    forall i :: 0 <= i < |inputs| ==> |inputs[i].frame.payload| <= MAX_PAYLOAD
  }

  /** The frame makes a request on which the process aborts. */
  ghost predicate FrameAborts(w: Setting, c: Connection, f: Frame, results: Results) {
    var requests := FrameRequests(c, f);
    |requests| > 0 && Aborts(w, requests[0], results)
  }

  /** The process aborts on some frame of the run; `results(i)` are those of the i-th frame. */
  ghost predicate Dies(w: Setting, c: Connection, inputs: seq<Input>, results: nat -> Results)
    requires RunFrames(c, inputs).Some?
  {
    |inputs| > 0 &&
    var n := |inputs| - 1;
    Dies(w, c, inputs[..n], results)
    || FrameAborts(w, RunFrames(c, inputs[..n]).value, inputs[n].frame, results(n))
  }

  /** What is sent over a run of frames, in order, up to an abort. */
  ghost function RunItems(w: Setting, c: Connection, inputs: seq<Input>, results: nat -> Results): seq<Item>
    requires AllSmallPayloads(inputs) && RunFrames(c, inputs).Some?
  {
    if |inputs| == 0 then []
    else
      var n := |inputs| - 1;
      RunItems(w, c, inputs[..n], results)
      + if Dies(w, c, inputs[..n], results) then []
        else FrameItems(w, RunFrames(c, inputs[..n]).value, inputs[n].frame, results(n))
  }

  lemma ErrorSendable(w: Setting, sid: uint32, results: Results)
    requires sid < 0x8000_0000
    ensures forall item <- ErrorItems(w, sid, results) :: Sendable(item) && item.client == w.client
  {
    hide ResponseBuffers, ResponseFrames, Sendable, AllShort;
    var hs := ErrorHeaders(404, w.notFound);
    assert |hs| == 5;
    hide ErrorHeaders;
    if |w.notFound.content| > 0 && AllShort(hs) {
      var taken := Taken(ResponseBuffers(hs, w.notFound.content, sid), results.error);
      assert ErrorItem(w, sid, results) == PageItem(w.client, hs, w.notFound.content, sid, taken);
      PageSendable(w.client, hs, w.notFound.content, sid, taken);
    }
  }

  lemma PathSendable(w: Setting, path: seq<byte>, sid: uint32, results: Results)
    requires sid < 0x8000_0000 && |w.site(path).content| > 0 && AllShort(PageHeaders(path, w.site(path)))
    ensures Sendable(PathItem(w, path, sid, results))
  {
    hide ResponseBuffers, ResponseFrames, Sendable, AllShort;
    var page := w.site(path);
    var hs := PageHeaders(path, page);
    assert |hs| == 6;
    hide PageHeaders;
    PageSendable(w.client, hs, page.content, sid, Taken(ResponseBuffers(hs, page.content, sid), results.page));
  }

  lemma RequestSendable(w: Setting, rq: Request, results: Results)
    requires rq.sid < 0x8000_0000
    ensures forall item <- RequestItems(w, rq, results) :: Sendable(item) && item.client == w.client
  {
    hide ResponseBuffers, ResponseFrames, Sendable, AllShort, PageHeaders, ErrorItems, NoneFails, FirstValue;
    ErrorSendable(w, rq.sid, results);
    var path := FirstValue(rq.headers, Ascii(":path"));
    if path.Some? {
      if |w.site(path.value).content| > 0 && AllShort(PageHeaders(path.value, w.site(path.value))) {
        PathSendable(w, path.value, rq.sid, results);
      }
    }
  }

  predicate LegalInputs(inputs: seq<Input>) {
    AllSmallPayloads(inputs) && forall i :: 0 <= i < |inputs| ==> inputs[i].frame.sid < 0x8000_0000
  }

  lemma FrameSendable(w: Setting, c: Connection, f: Frame, results: Results)
    requires |f.payload| <= MAX_PAYLOAD && f.sid < 0x8000_0000
    ensures forall item <- FrameItems(w, c, f, results) :: Sendable(item) && item.client == w.client
  {
    hide Sendable, RequestItems, TakenOver, EncodeFrame, DecodeBlock, Completes;
    ControlSendable(w.client, NewFrame(SETTINGS_FRAME, ACK, 0, []), results.control);
    ControlSendable(w.client, NewFrame(PING_FRAME, ACK, 0, f.payload), results.control);
    var requests := FrameRequests(c, f);
    if |requests| > 0 {
      RequestSendable(w, requests[0], results);
    }
  }

  lemma {:induction false} RunSendable(w: Setting, c: Connection, inputs: seq<Input>, results: nat -> Results)
    requires LegalInputs(inputs) && RunFrames(c, inputs).Some?
    ensures forall item <- RunItems(w, c, inputs, results) :: Sendable(item) && item.client == w.client
  {
    hide Sendable, FrameItems, FrameAborts, After;
    if |inputs| > 0 {
      var n := |inputs| - 1;
      RunSendable(w, c, inputs[..n], results);
      FrameSendable(w, RunFrames(c, inputs[..n]).value, inputs[n].frame, results(n));
    }
  }

  // ---------------------------------------------------------------- runs in parts

  function LaterResults(results: nat -> Results, m: nat): nat -> Results {
    (i: nat) => results(m + i)
  }

  lemma {:induction false} DiesConcat(w: Setting, c: Connection, a: seq<Input>, b: seq<Input>, results: nat -> Results)
    requires RunFrames(c, a + b).Some?
    ensures RunFrames(c, a).Some? && RunFrames(RunFrames(c, a).value, b) == RunFrames(c, a + b)
    ensures Dies(w, c, a + b, results) <==>
            Dies(w, c, a, results) || Dies(w, RunFrames(c, a).value, b, LaterResults(results, |a|))
  {
    hide After, FrameAborts;
    RunConcat(c, a, b);
    if |b| == 0 {
      assert a + b == a;
    } else {
      var n := |b| - 1;
      assert (a + b)[..|a| + n] == a + b[..n];
      RunConcat(c, a, b[..n]);
      DiesConcat(w, c, a, b[..n], results);
    }
  }

  /** A run in two parts: the second part is answered unless the process aborted in the first. */
  lemma {:induction false} ItemsConcat(w: Setting, c: Connection, a: seq<Input>, b: seq<Input>, results: nat -> Results)
    requires AllSmallPayloads(a) && AllSmallPayloads(b) && RunFrames(c, a + b).Some?
    ensures AllSmallPayloads(a + b)
    ensures RunFrames(c, a).Some? && RunFrames(RunFrames(c, a).value, b) == RunFrames(c, a + b)
    ensures RunItems(w, c, a + b, results)
         == RunItems(w, c, a, results)
            + if Dies(w, c, a, results) then []
              else RunItems(w, RunFrames(c, a).value, b, LaterResults(results, |a|))
  {
    hide After, FrameAborts, FrameItems, Dies;
    RunConcat(c, a, b);
    if |b| == 0 {
      assert a + b == a;
      assert RunItems(w, c, a, results) + [] == RunItems(w, c, a, results);
    } else {
      var n := |b| - 1;
      var m := |a| + n;
      assert (a + b)[..m] == a + b[..n] && (a + b)[m] == b[n];
      RunConcat(c, a, b[..n]);
      DiesConcat(w, c, a, b[..n], results);
      ItemsConcat(w, c, a, b[..n], results);
      var first, c1 := RunItems(w, c, a, results), RunFrames(c, a).value;
      var later := LaterResults(results, |a|);
      var last := if Dies(w, c, a + b[..n], results) then []
                  else FrameItems(w, RunFrames(c, a + b[..n]).value, b[n].frame, results(m));
      assert RunItems(w, c, a + b, results) == RunItems(w, c, a + b[..n], results) + last;
      if Dies(w, c, a, results) {
        assert first + [] + [] == first + [];
      } else {
        ConcatAssociative(first, RunItems(w, c1, b[..n], later), last);
        assert RunItems(w, c1, b, later) == RunItems(w, c1, b[..n], later) + last;
      }
    }
  }

  // ---------------------------------------------------------------- answers among control frames

  /** A single frame on stream 0, settings, a ping or an acknowledgement. */
  predicate IsControl(item: Item) {
    |item.frames| == 1 && item.frames[0].sid == 0
    && (item.frames[0].kind == SETTINGS_FRAME || item.frames[0].kind == PING_FRAME)
  }

  /** The items that are not control frames, in order. */
  function Answers(items: seq<Item>): (r: seq<Item>)
    ensures forall item <- r :: item in items
  {
    if |items| == 0 then []
    else
      var last := items[|items| - 1];
      Answers(items[..|items| - 1]) + if IsControl(last) then [] else [last]
  }

  lemma {:induction false} AnswersConcat(a: seq<Item>, b: seq<Item>)
    ensures Answers(a + b) == Answers(a) + Answers(b)
  {
    hide IsControl;
    if |b| == 0 {
      assert a + b == a;
    } else {
      var n := |b| - 1;
      AnswersConcat(a, b[..n]);
      assert (a + b)[..|a| + n] == a + b[..n];
    }
  }

  lemma {:induction false} NoAnswers(items: seq<Item>)
    requires forall item <- items :: IsControl(item)
    ensures Answers(items) == []
  {
    hide IsControl;
    if |items| > 0 {
      NoAnswers(items[..|items| - 1]);
    }
  }

  lemma {:induction false} OnlyAnswers(items: seq<Item>)
    requires forall item <- items :: !IsControl(item)
    ensures Answers(items) == items
  {
    hide IsControl;
    if |items| > 0 {
      OnlyAnswers(items[..|items| - 1]);
    }
  }

  lemma PageIsAnswer(client: int, hs: seq<Header>, content: seq<byte>, sid: uint32, taken: seq<int>)
    requires AllShort(hs) && |hs| <= 17
    ensures !IsControl(PageItem(client, hs, content, sid, taken))
  {
    hide EncodeBlock, ResponseFrames, ResponseBuffers, AllShort;
    ResponseFramesAre(hs, content, sid);
  }

  lemma RequestIsAnswered(w: Setting, rq: Request, results: Results)
    ensures Answers(RequestItems(w, rq, results)) == RequestItems(w, rq, results)
  {
    hide ResponseBuffers, ResponseFrames, AllShort, NoneFails, FirstValue, Answers, IsControl;
    var items := RequestItems(w, rq, results);
    forall item <- items
      ensures !IsControl(item)
    {
      var none := ErrorHeaders(404, w.notFound);
      assert |none| == 5;
      if AllShort(none) {
        PageIsAnswer(w.client, none, w.notFound.content, rq.sid, ErrorItem(w, rq.sid, results).taken);
      }
      var path := FirstValue(rq.headers, Ascii(":path"));
      if path.Some? && AllShort(PageHeaders(path.value, w.site(path.value))) {
        var item := PathItem(w, path.value, rq.sid, results);
        assert |PageHeaders(path.value, w.site(path.value))| == 6;
        var page := w.site(path.value);
        PageIsAnswer(w.client, PageHeaders(path.value, page), page.content, rq.sid, item.taken);
      }
    }
    OnlyAnswers(items);
  }

  lemma FrameAnswers(w: Setting, c: Connection, f: Frame, results: Results)
    requires |f.payload| <= MAX_PAYLOAD
    ensures |FrameRequests(c, f)| <= 1
    ensures Answers(FrameItems(w, c, f, results))
         == if |FrameRequests(c, f)| == 0 then [] else RequestItems(w, FrameRequests(c, f)[0], results)
  {
    hide RequestItems, DecodeBlock, Frame.Has, SettingsCodec.DecodeSettings, Answers;
    if |FrameRequests(c, f)| == 0 {
      NoAnswers(FrameItems(w, c, f, results));
    } else {
      RequestIsAnswered(w, FrameRequests(c, f)[0], results);
    }
  }

  /** The answers to the first requests, of which the k-th completes with frame `at[k]`. */
  function AnswersTo(w: Setting, requests: seq<Request>, results: nat -> Results, at: seq<nat>): seq<Item>
    requires |at| <= |requests|
  {
    if |at| == 0 then []
    else
      var n := |at| - 1;
      AnswersTo(w, requests, results, at[..n]) + RequestItems(w, requests[n], results(at[n]))
  }

  predicate AbortsAt(w: Setting, requests: seq<Request>, results: nat -> Results, at: seq<nat>, k: nat)
    requires k < |at| <= |requests|
  {
    Aborts(w, requests[k], results(at[k]))
  }

  /** The requests of frames `at` are those up to the first that ends in an abort, if any does. */
  predicate UpToAbort(w: Setting, requests: seq<Request>, results: nat -> Results, at: seq<nat>, died: bool) {
    && |at| <= |requests|
    && (forall k: nat :: k + 1 < |at| ==> !AbortsAt(w, requests, results, at, k))
    && (died <==> |at| > 0 && AbortsAt(w, requests, results, at, |at| - 1))
    && (!died ==> |at| == |requests|)
    && (forall i: nat, k: nat :: i < k < |at| ==> at[i] < at[k])
  }

  /** Every request of a run is answered in turn, once, up to one that makes the process abort;
      everything else that is sent are control frames. */
  lemma {:induction false} RequestsAnswered(w: Setting, c: Connection, inputs: seq<Input>, results: nat -> Results)
    returns (at: seq<nat>)
    requires AllSmallPayloads(inputs) && RunFrames(c, inputs).Some?
    ensures UpToAbort(w, Requested(c, inputs), results, at, Dies(w, c, inputs, results))
    ensures forall k <- at :: k < |inputs|
    ensures Answers(RunItems(w, c, inputs, results)) == AnswersTo(w, Requested(c, inputs), results, at)
  {
    hide FrameItems, FrameRequests, After, Aborts, RequestItems, UpToAbort, Answers, AnswersTo;
    if |inputs| == 0 {
      NoRequests(w, results);
      at := [];
    } else {
      var n := |inputs| - 1;
      var c1, f := RunFrames(c, inputs[..n]).value, inputs[n].frame;
      var earlier := Requested(c, inputs[..n]);
      at := RequestsAnswered(w, c, inputs[..n], results);
      AsMany(w, earlier, results, at, Dies(w, c, inputs[..n], results));
      FrameAnswers(w, c1, f, results(n));
      if Dies(w, c, inputs[..n], results) {
        StaysAborted(w, earlier, FrameRequests(c1, f), results, at);
        AnswersToFirst(w, earlier, FrameRequests(c1, f), results, at);
        assert RunItems(w, c, inputs[..n], results) + [] == RunItems(w, c, inputs[..n], results);
      } else {
        AnswersConcat(RunItems(w, c, inputs[..n], results), FrameItems(w, c1, f, results(n)));
        if |FrameRequests(c1, f)| > 0 {
          OneMoreRequest(w, earlier, FrameRequests(c1, f)[0], results, at, n);
          OneMoreAnswer(w, earlier, FrameRequests(c1, f)[0], results, at, n);
          assert FrameRequests(c1, f) == [FrameRequests(c1, f)[0]];
          at := at + [n];
        } else {
          assert earlier + [] == earlier;
          assert Answers(RunItems(w, c, inputs[..n], results)) + [] == Answers(RunItems(w, c, inputs[..n], results));
        }
      }
    }
  }

  lemma NoRequests(w: Setting, results: nat -> Results)
    ensures UpToAbort(w, [], results, [], false)
    ensures AnswersTo(w, [], results, []) == Answers([])
  {
  }

  lemma AsMany(w: Setting, requests: seq<Request>, results: nat -> Results, at: seq<nat>, died: bool)
    requires UpToAbort(w, requests, results, at, died)
    ensures |at| <= |requests| && (!died ==> |at| == |requests|)
  {
  }

  lemma StaysAborted(w: Setting, first: seq<Request>, more: seq<Request>, results: nat -> Results, at: seq<nat>)
    requires UpToAbort(w, first, results, at, true)
    ensures UpToAbort(w, first + more, results, at, true)
  {
    hide Aborts;
    var all := first + more;
    assert forall k: nat :: k < |at| ==> AbortsAt(w, all, results, at, k) == AbortsAt(w, first, results, at, k);
  }

  lemma OneMoreRequest(w: Setting, first: seq<Request>, rq: Request, results: nat -> Results, at: seq<nat>, n: nat)
    requires UpToAbort(w, first, results, at, false) && forall k <- at :: k < n
    ensures UpToAbort(w, first + [rq], results, at + [n], Aborts(w, rq, results(n)))
    ensures forall k <- at + [n] :: k <= n
  {
    hide Aborts;
    var requests, all := first + [rq], at + [n];
    forall k: nat | k < |at|
      ensures !AbortsAt(w, requests, results, all, k) && all[k] < n
    {
      assert requests[k] == first[k] && all[k] == at[k];
      assert at[k] in at;
      assert !AbortsAt(w, first, results, at, k);
    }
    assert requests[|at|] == rq && all[|at|] == n;
    forall i: nat, k: nat | i < k < |all|
      ensures all[i] < all[k]
    {
      assert k < |at| ==> all[k] == at[k] && all[i] == at[i];
    }
  }

  lemma OneMoreAnswer(w: Setting, first: seq<Request>, rq: Request, results: nat -> Results, at: seq<nat>, n: nat)
    requires |at| == |first|
    ensures AnswersTo(w, first + [rq], results, at + [n])
         == AnswersTo(w, first, results, at) + RequestItems(w, rq, results(n))
  {
    hide RequestItems;
    AnswersToFirst(w, first, [rq], results, at);
    assert (at + [n])[..|at|] == at;
  }

  /** Later requests play no part. */
  lemma {:induction false} AnswersToFirst(w: Setting, first: seq<Request>, more: seq<Request>,
                                          results: nat -> Results, at: seq<nat>)
    requires |at| <= |first|
    ensures AnswersTo(w, first + more, results, at) == AnswersTo(w, first, results, at)
  {
    hide RequestItems;
    if |at| > 0 {
      AnswersToFirst(w, first, more, results, at[..|at| - 1]);
    }
  }

  // ---------------------------------------------------------------- answers that nobody asked for

  lemma CutFrame(read: seq<byte>, tail: seq<byte>)
    requires Whole(read) && Segment(read).defined && 3 <= |tail| < 9 + FromBytes24(tail)
    ensures Segment(read + tail) == Segments(true, Segment(read).frames + [DEFAULT_FRAME])
  {
    hide FromBytes24, DecodePayload, Whole;
    WholeThen(read, tail);
    assert [DEFAULT_FRAME] + [] == [DEFAULT_FRAME];
  }

  lemma DefaultIsPing(w: Setting, c: Connection, served: bool, results: Results)
    ensures After(c, Input(DEFAULT_FRAME, served)) == Some(c)
    ensures FrameRequests(c, DEFAULT_FRAME) == []
    ensures FrameItems(w, c, DEFAULT_FRAME, results)
         == [ControlItem(w.client, NewFrame(PING_FRAME, ACK, 0, []), results.control)]
  {
    hide SettingsCodec.DecodeSettings, EncodeFrame, RequestItems, DecodeBlock;
  }

  /** A frame that is cut off by the end of a read, behind any whole ones, becomes a default PING on
      stream 0, and is answered by an acknowledgement without payload; nothing else comes of it. */
  lemma CutFrameAnswered(w: Setting, c: Connection, read: seq<byte>, tail: seq<byte>, served: nat -> bool,
                         results: nat -> Results)
    requires Whole(read) && Segment(read).defined && 3 <= |tail| < 9 + FromBytes24(tail)
    requires var inputs := Inputs(Segment(read).frames, served);
             AllSmallPayloads(inputs) && RunFrames(c, inputs).Some?
    ensures var inputs, more := Inputs(Segment(read).frames, served), Inputs(Segment(read + tail).frames, served);
            && AllSmallPayloads(more) && RunFrames(c, more) == RunFrames(c, inputs)
            && RunItems(w, c, more, results)
                 == RunItems(w, c, inputs, results)
                    + if Dies(w, c, inputs, results) then []
                      else [ControlItem(w.client, NewFrame(PING_FRAME, ACK, 0, []), results(|inputs|).control)]
  {
    hide Segment, FromBytes24, Whole, After, FrameRequests, Aborts, FrameItems;
    var inputs, more := Inputs(Segment(read).frames, served), Inputs(Segment(read + tail).frames, served);
    var n := |inputs|;
    CutFrame(read, tail);
    assert more == inputs + [Input(DEFAULT_FRAME, served(n))];
    assert more[..n] == inputs;
    DefaultIsPing(w, RunFrames(c, inputs).value, served(n), results(n));
  }

  lemma {:induction false} FirstStaysFirst(a: seq<Header>, b: seq<Header>, name: seq<byte>)
    requires FirstValue(a, name).Some?
    ensures FirstValue(a + b, name) == FirstValue(a, name)
  {
    assert (a + b)[1..] == a[1..] + b;
    if a[0].name != name {
      FirstStaysFirst(a[1..], b, name);
    }
  }

  /** Headers of earlier blocks stay with their stream. So trailers are handed on as a second
      request, and the path of the first one is answered again. */
  lemma TrailersAnsweredAgain(c: Connection, f: Frame, path: seq<byte>)
    requires FirstValue(HeadersOf(c, f.sid), Ascii(":path")) == Some(path)
    ensures forall rq <- FrameRequests(c, f) ::
              rq.sid == f.sid && FirstValue(rq.headers, Ascii(":path")) == Some(path)
  {
    hide DecodeBlock, Completes, FirstValue;
    if |FrameRequests(c, f)| > 0 {
      FirstStaysFirst(HeadersOf(c, f.sid), DecodeBlock(c.table, Completes(c, f).value).headers, Ascii(":path"));
    }
  }

  // ---------------------------------------------------------------- a request that aborts

  /** A path in plain text, with the name taken from the static table. */
  function PathField(path: seq<byte>): Representation {
    LiteralField(WithoutIndexing, Index(4), Spelling(path, false))
  }

  lemma PathFieldDecodes(t: Table, path: seq<byte>)
    requires |path| < TWO_32
    ensures DecodeBlock(t, BlockBytes([PathField(path)]))
         == HpackDecoder.Result(Accepted, [Header(Ascii(":path"), path)], t)
  {
    hide DecodeBlock, BlockBytes, Meanings, StaticTable;
    StaticEntries();
    BlockDecodes(t, [PathField(path)]);
    OneMeaning(t, PathField(path));
  }

  lemma PathInBlock(path: seq<byte>)
    ensures |BlockBytes([PathField(path)])| >= |path|
  {
    hide EncodeInteger;
    OneBlock(PathField(path));
  }

  /** Any path of 127 bytes or more for which there is a page, sent as the whole first request of a
      connection, ends the process before anything is answered. */
  lemma LongPathAborts(w: Setting, path: seq<byte>, sid: uint32, results: nat -> Results)
    requires 127 <= |path| && |w.site(path).content| > 0
    requires |BlockBytes([PathField(path)])| <= MAX_PAYLOAD
    ensures var inputs := OneFrame(sid, BlockBytes([PathField(path)]));
            && AllSmallPayloads(inputs) && RunFrames(NEW_CONNECTION, inputs).Some?
            && Dies(w, NEW_CONNECTION, inputs, results)
            && RunItems(w, NEW_CONNECTION, inputs, results) == []
  {
    hide DecodeBlock, BlockBytes, AllShort, PageHeaders, FirstValue, ResponseBuffers, After, FrameItems, Aborts;
    var block := BlockBytes([PathField(path)]);
    var c, inputs, hs := NEW_CONNECTION, OneFrame(sid, block), [Header(Ascii(":path"), path)];
    PathInBlock(path);
    PathFieldDecodes(c.table, path);
    assert [] + block == block && [] + hs == hs;
    assert inputs[..0] == [];
    FrameUndefinedBlock(c, inputs[0]);
    RunOne(c, inputs[0]);
    var rq := Request(sid, hs);
    assert FrameRequests(c, inputs[0].frame) == [rq];
    LongPathRequest(w, rq, path, results(0));
    NothingBeforeAbort(w, c, inputs[0].frame, rq, results(0));
  }

  lemma LongPathRequest(w: Setting, rq: Request, path: seq<byte>, results: Results)
    requires rq.headers == [Header(Ascii(":path"), path)] && 127 <= |path| && |w.site(path).content| > 0
    ensures Aborts(w, rq, results) && RequestItems(w, rq, results) == []
  {
    hide AllShort, PageHeaders, FirstValue, ResponseBuffers;
    OnlyHeader(rq.headers[0]);
    AbortsExactly(path, w.site(path));
  }

  lemma NothingBeforeAbort(w: Setting, c: Connection, f: Frame, rq: Request, results: Results)
    requires |f.payload| <= MAX_PAYLOAD && f.kind == HEADERS_FRAME && FrameRequests(c, f) == [rq]
    ensures FrameItems(w, c, f, results) == RequestItems(w, rq, results)
  {
    hide RequestItems, FrameRequests;
  }

  lemma OnlyHeader(h: Header)
    ensures FirstValue([h], h.name) == Some(h.value)
  {
  }
}
