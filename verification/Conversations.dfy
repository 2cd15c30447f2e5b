/** Pages and single frames for several connections, written through the thread pool: what each
    peer makes of the bytes it receives. */
module Conversations {
  import opened Bytes
  import opened Frames
  import opened HeaderTable
  import opened HpackEncoder
  import opened Responses
  import opened Serving
  import opened ThreadPool
  import opened OrderedWrites

  /** Something to be sent to one client: the frames it consists of, the buffers they are written
      in, and `taken`, the results of these writes. */
  datatype Item = Item(client: int, weight: int, frames: seq<Frame>, buffers: seq<seq<byte>>, taken: seq<int>)

  predicate Sendable(item: Item) {
    && (forall f <- item.frames :: Plain(f))
    && (forall b <- item.buffers :: |b| > 0)
    && |item.taken| == |item.buffers|
    && Flatten(item.buffers) == EncodePlain(item.frames)
  }

  function EncodePlain(fs: seq<Frame>): seq<byte>
    requires forall f <- fs :: Plain(f)
  {
    PlainIsEncodable(fs);
    EncodeFrames(fs)
  }

  lemma PlainIsEncodable(fs: seq<Frame>)
    requires forall f <- fs :: Plain(f)
    ensures AllEncodable(fs)
  {
    forall f <- fs
      ensures |f.payload| <= MAX_PAYLOAD
    {
      assert Plain(f);
    }
  }

  /** A response with headers and content. */
  function PageItem(client: int, hs: seq<Header>, content: seq<byte>, sid: uint32, taken: seq<int>): Item {
    Item(client, 0, ResponseFrames(hs, content, sid), ResponseBuffers(hs, content, sid), taken)
  }

  lemma PageSendable(client: int, hs: seq<Header>, content: seq<byte>, sid: uint32, taken: seq<int>)
    requires AllShort(hs) && |hs| <= 17 && |content| > 0 && sid < 0x8000_0000
    requires |taken| == |ResponseBuffers(hs, content, sid)|
    ensures Sendable(PageItem(client, hs, content, sid, taken))
  {
    hide AllShort, Plain, ResponseBuffers, ResponseFrames, EncodeFrames, Flatten;
    ResponseIsPlain(hs, content, sid);
    WritesAreSmall(hs, content, sid);
    ResponseBytes(hs, content, sid);
  }

  /** A control frame, which `sendFrame` writes by itself. */
  function ControlItem(client: int, f: Frame, taken: int): Item
    requires |f.payload| <= MAX_PAYLOAD
  {
    Item(client, 0, [f], [EncodeFrame(f)], [taken])
  }

  lemma ControlSendable(client: int, f: Frame, taken: int)
    requires Plain(f)
    ensures Sendable(ControlItem(client, f, taken))
  {
    hide EncodeFrame;
    EncodeFramesOne(f);
    FlattenFront(EncodeFrame(f), []);
    assert [EncodeFrame(f)] + [] == [EncodeFrame(f)];
    assert EncodeFrame(f) + [] == EncodeFrame(f);
    NoCalls();
  }

  /** One call of `sendData` per buffer, up to the first that fails. */
  function CallsFor(client: int, weight: int, buffers: seq<seq<byte>>, taken: seq<int>): seq<Call>
    requires |taken| == |buffers|
  {
    if |buffers| == 0 then []
    else
      [Call(client, buffers[0], weight, taken[0])]
      + if taken[0] < 0 then [] else CallsFor(client, weight, buffers[1..], taken[1..])
  }

  function ItemCalls(item: Item): seq<Call>
    requires Sendable(item)
  {
    CallsFor(item.client, item.weight, item.buffers, item.taken)
  }

  function AllCalls(items: seq<Item>): seq<Call>
    requires forall item <- items :: Sendable(item)
  {
    if |items| == 0 then []
    else AllCalls(items[..|items| - 1]) + ItemCalls(items[|items| - 1])
  }

  /** The items for one client. */
  function ItemsFor(client: int, items: seq<Item>): (r: seq<Item>)
    ensures forall item <- r :: item in items && item.client == client
  {
    if |items| == 0 then []
    else
      var last := items[|items| - 1];
      ItemsFor(client, items[..|items| - 1]) + if last.client == client then [last] else []
  }

  /** The frames of some items, one item after the other. */
  function FramesOf(items: seq<Item>): seq<Frame> {
    if |items| == 0 then [] else FramesOf(items[..|items| - 1]) + items[|items| - 1].frames
  }

  /** Every write took the whole buffer. */
  predicate TakenWhole(buffers: seq<seq<byte>>, taken: seq<int>)
    requires |taken| == |buffers|
  {
    forall i :: 0 <= i < |buffers| ==> taken[i] >= |buffers[i]|
  }

  predicate ItemTaken(item: Item)
    requires Sendable(item)
  {
    TakenWhole(item.buffers, item.taken)
  }

  // ---------------------------------------------------------------- joining

  lemma {:induction false} SentToConcat(client: int, a: seq<Call>, b: seq<Call>)
    ensures SentTo(client, a + b) == SentTo(client, a) + SentTo(client, b)
  {
    if |b| == 0 {
      assert a + b == a;
    } else {
      SentToConcat(client, a, b[..|b| - 1]);
      assert (a + b)[..|a + b| - 1] == a + b[..|b| - 1];
    }
  }

  lemma SentToOne(client: int, call: Call)
    ensures SentTo(client, [call]) == if call.client == client then BytesTaken(call) else []
  {
    assert [call][..0] == [];
  }

  lemma {:induction false} FlattenFront(part: seq<byte>, parts: seq<seq<byte>>)
    ensures Flatten([part] + parts) == part + Flatten(parts)
  {
    if |parts| == 0 {
      assert [part] + parts == [part];
      assert Flatten([part]) == Flatten([]) + part;
    } else {
      var init, last := parts[..|parts| - 1], parts[|parts| - 1];
      FlattenFront(part, init);
      assert ([part] + parts)[..|parts|] == [part] + init;
      ConcatAssociative(part, Flatten(init), last);
    }
  }

  /** What goes out of one response: all of it exactly when every write took its whole buffer, and
      less otherwise. */
  ghost predicate GoesOut(sent: seq<byte>, whole: seq<byte>, complete: bool) {
    |sent| <= |whole| && (if complete then sent == whole else |sent| < |whole|)
  }

  lemma {:induction false} SentBuffers(client: int, weight: int, buffers: seq<seq<byte>>, taken: seq<int>)
    requires |taken| == |buffers| && forall b <- buffers :: |b| > 0
    ensures GoesOut(SentTo(client, CallsFor(client, weight, buffers, taken)), Flatten(buffers),
                    TakenWhole(buffers, taken))
  {
    hide SentTo, Flatten;
    if |buffers| == 0 {
      NoCalls();
    } else {
      var call, rest := Call(client, buffers[0], weight, taken[0]), buffers[1..];
      var more := if taken[0] < 0 then [] else CallsFor(client, weight, rest, taken[1..]);
      assert buffers == [buffers[0]] + rest;
      FlattenFront(buffers[0], rest);
      SentToConcat(client, [call], more);
      SentToOne(client, call);
      assert buffers[0] in buffers;
      TakenFirst(buffers, taken);
      NoCalls();
      if taken[0] >= 0 {
        SentBuffers(client, weight, rest, taken[1..]);
      }
    }
  }

  lemma TakenFirst(buffers: seq<seq<byte>>, taken: seq<int>)
    requires |taken| == |buffers| > 0
    ensures TakenWhole(buffers, taken) <==> taken[0] >= |buffers[0]| && TakenWhole(buffers[1..], taken[1..])
  {
    assert forall i :: 1 <= i < |buffers| ==> buffers[i] == buffers[1..][i - 1] && taken[i] == taken[1..][i - 1];
  }

  lemma NoCalls()
    ensures Flatten([]) == []
    ensures forall client :: SentTo(client, []) == []
  {
  }

  lemma {:induction false} OthersSent(client: int, other: int, weight: int, buffers: seq<seq<byte>>, taken: seq<int>)
    requires |taken| == |buffers| && other != client
    ensures SentTo(client, CallsFor(other, weight, buffers, taken)) == []
  {
    hide SentTo;
    NoCalls();
    if |buffers| > 0 {
      var call := Call(other, buffers[0], weight, taken[0]);
      var more := if taken[0] < 0 then [] else CallsFor(other, weight, buffers[1..], taken[1..]);
      SentToConcat(client, [call], more);
      SentToOne(client, call);
      if taken[0] >= 0 {
        OthersSent(client, other, weight, buffers[1..], taken[1..]);
      }
    }
  }

  /** Buffers cut the frames of a response elsewhere than the frames do, but joined they are the
      same bytes. */
  lemma ResponseBytes(hs: seq<Header>, content: seq<byte>, sid: uint32)
    ensures Flatten(ResponseBuffers(hs, content, sid)) == EncodeFrames(ResponseFrames(hs, content, sid))
  {
    hide ResponseFrames, Groups, Buffers, EncodeFrames, Flatten;
    var fs := ResponseFrames(hs, content, sid);
    GroupsPartition(fs);
    FlattenBuffers(Groups(fs));
  }

  lemma ItemGoesOut(client: int, item: Item)
    requires Sendable(item)
    ensures GoesOut(SentTo(client, ItemCalls(item)),
                    if item.client == client then EncodePlain(item.frames) else [],
                    item.client == client ==> ItemTaken(item))
  {
    hide EncodePlain, SentTo, Flatten, CallsFor, TakenWhole, Plain;
    if item.client == client {
      SentBuffers(client, item.weight, item.buffers, item.taken);
    } else {
      OthersSent(client, item.client, item.weight, item.buffers, item.taken);
    }
  }

  lemma Joins(a: seq<byte>, x: seq<byte>, p: bool, b: seq<byte>, y: seq<byte>, q: bool)
    requires GoesOut(a, x, p) && GoesOut(b, y, q)
    ensures GoesOut(a + b, x + y, p && q)
  {
  }

  /** Every write for these items took its whole buffer. */
  predicate AllTaken(items: seq<Item>)
    requires forall item <- items :: Sendable(item)
  {
    forall item <- items :: ItemTaken(item)
  }

  lemma {:induction false} FramesArePlain(items: seq<Item>)
    requires forall item <- items :: Sendable(item)
    ensures forall f <- FramesOf(items) :: Plain(f)
  {
    hide Plain;
    if |items| > 0 {
      assert Sendable(items[|items| - 1]);
      FramesArePlain(items[..|items| - 1]);
    }
  }

  lemma {:induction false} ItemsGoOut(client: int, items: seq<Item>)
    requires forall item <- items :: Sendable(item)
    ensures forall f <- FramesOf(ItemsFor(client, items)) :: Plain(f)
    ensures GoesOut(SentTo(client, AllCalls(items)), EncodePlain(FramesOf(ItemsFor(client, items))),
                    AllTaken(ItemsFor(client, items)))
  {
    hide SentTo, ItemCalls, ItemTaken, Sendable, GoesOut, Plain, EncodePlain;
    FramesArePlain(ItemsFor(client, items));
    if |items| == 0 {
      NothingGoesOut(client);
    } else {
      var init, item := items[..|items| - 1], items[|items| - 1];
      var before := ItemsFor(client, init);
      assert item in items;
      ItemsGoOut(client, init);
      ItemGoesOut(client, item);
      SentToConcat(client, AllCalls(init), ItemCalls(item));
      if item.client == client {
        FramesArePlain([item]);
        assert (before + [item])[..|before|] == before;
        assert FramesOf(before + [item]) == FramesOf(before) + item.frames;
        assert ItemFramesPlain(item) by {
          SendableIsPlain(item);
        }
        EncodePlainConcat(FramesOf(before), item.frames);
        Joins(SentTo(client, AllCalls(init)), EncodePlain(FramesOf(before)), AllTaken(before),
              SentTo(client, ItemCalls(item)), EncodePlain(item.frames), ItemTaken(item));
      } else {
        assert before + [] == before;
        Joins(SentTo(client, AllCalls(init)), EncodePlain(FramesOf(before)), AllTaken(before),
              SentTo(client, ItemCalls(item)), [], true);
        assert EncodePlain(FramesOf(before)) + [] == EncodePlain(FramesOf(before));
      }
    }
  }

  predicate ItemFramesPlain(item: Item) {
    forall f <- item.frames :: Plain(f)
  }

  lemma SendableIsPlain(item: Item)
    requires Sendable(item)
    ensures ItemFramesPlain(item)
  {
  }

  lemma EncodePlainConcat(a: seq<Frame>, b: seq<Frame>)
    requires (forall f <- a :: Plain(f)) && forall f <- b :: Plain(f)
    ensures EncodePlain(a + b) == EncodePlain(a) + EncodePlain(b)
  {
    hide EncodeFrame;
    EncodeFramesConcat(a, b);
  }

  lemma NothingGoesOut(client: int)
    ensures GoesOut(SentTo(client, []), EncodePlain([]), true)
  {
  }

  // ---------------------------------------------------------------- through the pool

  /** When the event loop is through with a list of items, pages and control frames for any
      clients, a client has received all bytes of its items exactly when every write for it took
      its whole buffer. Then it reads exactly their frames, whole and in order: no two items are
      interleaved and no frame is torn, whatever the workers did. */
  lemma ResponsesArriveWhole(items: seq<Item>, n: nat, events: seq<Event>, s: System, client: int)
    requires forall item <- items :: Sendable(item)
    requires Reaches(AllCalls(items), System(Start(n), Outside), events, s)
    requires s.phase.Outside? && |s.pool.submitted| == |AllCalls(items)|
    ensures forall t <- s.pool.done :: t.id < |AllCalls(items)|
    ensures forall f <- FramesOf(ItemsFor(client, items)) :: Plain(f)
    ensures var received := SentTo(client, Written(AllCalls(items), s.pool.done));
            var mine := ItemsFor(client, items);
            && (received == EncodePlain(FramesOf(mine)) <==> AllTaken(mine))
            && (AllTaken(mine) ==> Segment(received) == Segments(true, FramesOf(mine)))
  {
    hide Reaches, Segment, EncodeFrames, FramesOf, ItemsFor, SentTo, Plain, Sendable, Written, AllTaken;
    var calls := AllCalls(items);
    WritesInOrder(calls, n, events, s);
    assert calls[..|calls|] == calls;
    ItemsGoOut(client, items);
    PlainIsEncodable(FramesOf(ItemsFor(client, items)));
    SegmentRoundTrip(FramesOf(ItemsFor(client, items)));
  }
}
