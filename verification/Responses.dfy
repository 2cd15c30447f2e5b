/** From response headers and content to write buffers: splitting large bodies into DATA frames
    and batching frames into buffers. */
module Responses {
  import opened Bytes
  import opened Frames

  /** `16384-15` in the source, and used so that the missing parentheses make no difference. */
  const MAX_FRAME_SIZE := 16369

  // ---------------------------------------------------------------- splitting

  function ClearEndStream(flags: byte): byte {
    if flags % 2 == 1 then flags - 1 else flags
  }

  function SetEndStream(flags: byte): byte {
    if flags % 2 == 1 then flags else flags + 1
  }

  /** Pieces of at most `MAX_FRAME_SIZE` bytes, all but the last of exactly that size. */
  function Chunks(payload: seq<byte>): seq<seq<byte>> {
    if |payload| == 0 then []
    else if |payload| <= MAX_FRAME_SIZE then [payload]
    else [payload[..MAX_FRAME_SIZE]] + Chunks(payload[MAX_FRAME_SIZE..])
  }

  /** One frame per chunk; END_STREAM moves to the last of them. */
  function SplitUp(f: Frame): seq<Frame> {
    var chunks := Chunks(f.payload);
    seq(|chunks|, i requires 0 <= i < |chunks| =>
      NewFrame(f.kind, if i == |chunks| - 1 then f.flags else ClearEndStream(f.flags), f.sid, chunks[i]))
  }

  function ProcessOne(f: Frame): seq<Frame> {
    if |f.payload| > MAX_FRAME_SIZE then SplitUp(f) else [f]
  }

  function Processed(fs: seq<Frame>): seq<Frame> {
    if |fs| == 0 then [] else Processed(fs[..|fs| - 1]) + ProcessOne(fs[|fs| - 1])
  }

  /** The payloads of a list of frames, joined. */
  function Joined(fs: seq<Frame>): seq<byte> {
    if |fs| == 0 then [] else fs[0].payload + Joined(fs[1..])
  }

  lemma {:induction false} ChunksFacts(payload: seq<byte>)
    ensures |payload| > 0 ==> |Chunks(payload)| > 0
    ensures forall c <- Chunks(payload) :: 0 < |c| <= MAX_FRAME_SIZE
    ensures forall i :: 0 <= i < |Chunks(payload)| - 1 ==> |Chunks(payload)[i]| == MAX_FRAME_SIZE
  {
    if |payload| > MAX_FRAME_SIZE {
      var rest := payload[MAX_FRAME_SIZE..];
      ChunksFacts(rest);
      var first := payload[..MAX_FRAME_SIZE];
      assert Chunks(payload) == [first] + Chunks(rest) && |first| == MAX_FRAME_SIZE;
      assert Chunks(rest) == Chunks(payload)[1..];
    }
  }

  /** Frames `fs` carry the chunks of `payload`, on one stream, ended by the last one. */
  ghost predicate Carries(fs: seq<Frame>, f: Frame, payload: seq<byte>) {
    && Joined(fs) == payload
    && (forall g <- fs :: g.kind == f.kind && g.sid == f.sid && 0 < |g.payload| <= MAX_FRAME_SIZE)
    && (forall i :: 0 <= i < |fs| - 1 ==> fs[i].flags == ClearEndStream(f.flags))
    && (|fs| > 0 ==> fs[|fs| - 1].flags == f.flags)
  }

  lemma {:induction false} SplitCarries(f: Frame)
    ensures Carries(SplitUp(f), f, f.payload)
    ensures |f.payload| > 0 ==> |SplitUp(f)| > 0
    decreases |f.payload|
  {
    ChunksFacts(f.payload);
    var fs := SplitUp(f);
    if |f.payload| > MAX_FRAME_SIZE {
      var g := f.(payload := f.payload[MAX_FRAME_SIZE..]);
      SplitCarries(g);
      ChunksFacts(g.payload);
      assert fs[1..] == SplitUp(g);
      assert f.payload == f.payload[..MAX_FRAME_SIZE] + g.payload;
    } else if |f.payload| > 0 {
      assert fs[1..] == [];
    }
  }

  lemma {:induction false} ProcessedIsSmall(fs: seq<Frame>)
    ensures forall g <- Processed(fs) :: |g.payload| <= MAX_FRAME_SIZE
  {
    if |fs| > 0 {
      ProcessedIsSmall(fs[..|fs| - 1]);
      SplitCarries(fs[|fs| - 1]);
    }
  }

  // ---------------------------------------------------------------- batching

  predicate AllSmall(fs: seq<Frame>) {
    forall f <- fs :: |f.payload| <= MAX_FRAME_SIZE
  }

  function EncodedSize(fs: seq<Frame>): nat {
    if |fs| == 0 then 0 else EncodedSize(fs[..|fs| - 1]) + 9 + |fs[|fs| - 1].payload|
  }

  /** Which frames share a buffer: a frame opens a new one when it would not fit. */
  function Groups(fs: seq<Frame>): (groups: seq<seq<Frame>>)
    ensures |groups| > 0
    ensures forall g <- groups, f <- g :: f in fs
  {
    if |fs| == 0 then [[]]
    else
      var groups, f := Groups(fs[..|fs| - 1]), fs[|fs| - 1];
      var current := groups[|groups| - 1];
      if EncodedSize(current) + |f.payload| + 9 > MAX_FRAME_SIZE then groups + [[f]]
      else groups[..|groups| - 1] + [current + [f]]
  }

  function JoinGroups(groups: seq<seq<Frame>>): seq<Frame> {
    if |groups| == 0 then [] else JoinGroups(groups[..|groups| - 1]) + groups[|groups| - 1]
  }

  lemma JoinSnoc(groups: seq<seq<Frame>>, g: seq<Frame>)
    ensures JoinGroups(groups + [g]) == JoinGroups(groups) + g
  {
    assert (groups + [g])[..|groups|] == groups;
  }

  lemma JoinExtended(groups: seq<seq<Frame>>, f: Frame)
    requires |groups| > 0
    ensures var n := |groups| - 1;
            JoinGroups(groups[..n] + [groups[n] + [f]]) == JoinGroups(groups) + [f]
  {
    hide JoinGroups;
    var n := |groups| - 1;
    JoinSnoc(groups[..n], groups[n]);
    JoinSnoc(groups[..n], groups[n] + [f]);
    assert groups[..n] + [groups[n]] == groups;
    ConcatAssociative(JoinGroups(groups[..n]), groups[n], [f]);
  }

  lemma GroupsStay(init: seq<Frame>, f: Frame)
    requires JoinGroups(Groups(init)) == init
    ensures JoinGroups(Groups(init + [f])) == init + [f]
  {
    hide EncodedSize, JoinGroups;
    assert (init + [f])[..|init|] == init;
    JoinSnoc(Groups(init), [f]);
    JoinExtended(Groups(init), f);
  }

  lemma NothingJoined()
    ensures JoinGroups([[]]) == []
  {
  }

  lemma {:induction false} GroupsPartition(fs: seq<Frame>)
    ensures JoinGroups(Groups(fs)) == fs
  {
    hide Groups, JoinGroups;
    if |fs| == 0 {
      GroupsStart();
      NothingJoined();
    } else {
      var init, f := fs[..|fs| - 1], fs[|fs| - 1];
      GroupsPartition(init);
      GroupsStay(init, f);
      assert fs == init + [f];
    }
  }

  /** The bytes of each group. */
  function Buffers(groups: seq<seq<Frame>>): (bs: seq<seq<byte>>)
    requires forall g <- groups :: AllEncodable(g)
    ensures |bs| == |groups|
  {
    seq(|groups|, i requires 0 <= i < |groups| => assert groups[i] in groups; EncodeFrames(groups[i]))
  }

  lemma {:induction false} EncodeFramesConcat(a: seq<Frame>, b: seq<Frame>)
    requires AllEncodable(a) && AllEncodable(b)
    ensures EncodeFrames(a + b) == EncodeFrames(a) + EncodeFrames(b)
  {
    hide EncodeFrame;
    if |a| == 0 {
      assert a + b == b;
    } else {
      EncodeFramesConcat(a[1..], b);
      assert (a + b)[1..] == a[1..] + b;
    }
  }

  lemma EncodeFramesOne(f: Frame)
    requires |f.payload| <= MAX_PAYLOAD
    ensures EncodeFrames([f]) == EncodeFrame(f)
  {
    assert [f][1..] == [];
  }

  lemma {:induction false} EncodedSizeIsLength(fs: seq<Frame>)
    requires AllEncodable(fs)
    ensures |EncodeFrames(fs)| == EncodedSize(fs)
  {
    if |fs| > 0 {
      var init, f := fs[..|fs| - 1], fs[|fs| - 1];
      EncodedSizeIsLength(init);
      EncodeFramesConcat(init, [f]);
      EncodeFramesOne(f);
      assert fs == init + [f];
    }
  }

  lemma {:induction false} FlattenBuffers(groups: seq<seq<Frame>>)
    requires forall g <- groups :: AllEncodable(g)
    ensures AllEncodable(JoinGroups(groups))
    ensures Flatten(Buffers(groups)) == EncodeFrames(JoinGroups(groups))
  {
    hide EncodeFrames;
    if |groups| > 0 {
      var init, last := groups[..|groups| - 1], groups[|groups| - 1];
      FlattenBuffers(init);
      EncodeFramesConcat(JoinGroups(init), last);
      assert Buffers(groups)[..|groups| - 1] == Buffers(init);
    } else {
      NoFrames();
    }
  }

  lemma NoFrames()
    ensures EncodeFrames([]) == []
  {
  }

  /** What holds of the frames in one buffer. */
  ghost predicate GoodGroup(g: seq<Frame>) {
    && EncodedSize(g) <= MAX_FRAME_SIZE + 9
    && (|g| >= 2 ==> EncodedSize(g) <= MAX_FRAME_SIZE)
  }

  /** `g` was opened only because its first frame did not fit behind `before`. */
  ghost predicate Overflowed(before: seq<Frame>, g: seq<Frame>) {
    |g| > 0 && EncodedSize(before) + |g[0].payload| + 9 > MAX_FRAME_SIZE
  }

  /** Every buffer is a whole number of frames within the bounds, no buffer but possibly the
      first is empty, and no new one is opened while the frame still fits the current one. */
  lemma {:induction false} BatchingBounds(fs: seq<Frame>)
    requires AllSmall(fs)
    ensures forall g <- Groups(fs) :: GoodGroup(g)
    ensures forall i :: 0 < i < |Groups(fs)| ==> Overflowed(Groups(fs)[i - 1], Groups(fs)[i])
    ensures Groups(fs)[0] == [] <==> |fs| == 0 || |fs[0].payload| + 9 > MAX_FRAME_SIZE
  {
    hide EncodedSize;
    EncodedSizeSteps();
    if |fs| > 0 {
      var init, f := fs[..|fs| - 1], fs[|fs| - 1];
      BatchingBounds(init);
      var groups, now := Groups(init), Groups(fs);
      var n := |groups|;
      var current := groups[n - 1];
      assert |init| > 0 ==> init[0] == fs[0];
      assert |init| == 0 ==> groups == [[]];
      assert GoodGroup(current);
      if EncodedSize(current) + |f.payload| + 9 > MAX_FRAME_SIZE {
        assert EncodedSize([] + [f]) == EncodedSize([]) + 9 + |f.payload|;
        assert [] + [f] == [f];
      } else {
        assert EncodedSize(current + [f]) == EncodedSize(current) + 9 + |f.payload|;
        assert n > 1 ==> (current + [f])[0] == current[0];
      }
    }
  }

  lemma EncodedSizeSteps()
    ensures EncodedSize([]) == 0
    ensures forall g: seq<Frame>, f: Frame :: EncodedSize(g + [f]) == EncodedSize(g) + 9 + |f.payload|
  {
    forall g: seq<Frame>, f: Frame
      ensures EncodedSize(g + [f]) == EncodedSize(g) + 9 + |f.payload|
    {
      assert (g + [f])[..|g|] == g;
    }
  }

  // ---------------------------------------------------------------- the response object

  class Response {
    var frames: seq<Frame>

    constructor ()
      ensures frames == []
    {
      frames := [];
    }

    method AddFrame(f: Frame)
      modifies this
      ensures frames == old(frames) + [f]
    {
      frames := frames + [f];
    }

    method SplitFrame(f: Frame) returns (split: seq<Frame>)
      ensures split == if f.Size() <= MAX_FRAME_SIZE then [f] else SplitUp(f)
    {
      hide Chunks, SplitUp, SplitUpTo;
      if f.Size() <= MAX_FRAME_SIZE {
        return [f];
      }
      split := [];
      var endStream := f.Has(END_STREAM);
      var flags := if endStream then ClearEndStream(f.flags) else f.flags;
      var offset := 0;
      SplittingStarts(f);
      while offset < |f.payload|
        invariant 0 <= offset <= |f.payload|
        invariant offset > 0 ==> |split| > 0
        invariant SplitUpTo(f, flags, offset, split)
        decreases |f.payload| - offset
      {
        var left := |f.payload| - offset;
        var chunkSize := if MAX_FRAME_SIZE <= left then MAX_FRAME_SIZE else left;
        var chunk := f.payload[offset..offset + chunkSize];
        SplittingStep(f, flags, offset, split);
        split := split + [NewFrame(f.kind, flags, f.sid, chunk)];
        offset := offset + chunkSize;
      }
      SplittingEnds(f, flags, split);
      var last := |split| - 1;
      if endStream {
        assert SetEndStream(flags) == f.flags;
        split := split[..last] + [split[last].(flags := SetEndStream(split[last].flags))];
      } else {
        assert split[last].(flags := f.flags) == split[last];
        assert split[..last] + [split[last]] == split;
      }
    }

    method ProcessFrames()
      modifies this
      ensures frames == Processed(old(frames))
    {
      hide SplitUp;
      var newFrames: seq<Frame> := [];
      var i := 0;
      while i < |frames|
        invariant 0 <= i <= |frames| && frames == old(frames)
        invariant newFrames == Processed(frames[..i])
      {
        var f := frames[i];
        if |f.payload| > MAX_FRAME_SIZE {
          var splitFrames := SplitFrame(f);
          newFrames := newFrames + splitFrames;
        } else {
          newFrames := newFrames + [f];
        }
        assert frames[..i + 1][..i] == frames[..i];
        i := i + 1;
      }
      assert frames[..i] == frames;
      frames := newFrames;
    }

    method EncodeFrames() returns (encoded: seq<seq<byte>>)
      requires AllEncodable(frames)
      ensures encoded == Buffers(Groups(frames))
    {
      hide Frames.EncodeFrames, EncodedSize, Groups, BatchedUpTo;
      BatchingStarts(frames);
      encoded := [[]];
      var currSize: nat, ctr: nat := 0, 0;
      var i := 0;
      while i < |frames|
        invariant 0 <= i <= |frames| && |encoded| == ctr + 1
        invariant BatchedUpTo(frames, i, encoded, currSize)
      {
        var f := frames[i];
        BatchingStep(frames, i, encoded, currSize);
        if currSize + |f.payload| + 9 > MAX_FRAME_SIZE {
          encoded := encoded + [[]];
          currSize := 0;
          ctr := ctr + 1;
        }
        var frame := Encode(f);
        encoded := encoded[..ctr] + [encoded[ctr] + frame];
        currSize := currSize + |frame|;
        i := i + 1;
      }
      BatchingEnds(frames, encoded, currSize);
    }
  }

  // ---------------------------------------------------------------- loop lemmas

  function Payloads(fs: seq<Frame>): (ps: seq<seq<byte>>)
    ensures |ps| == |fs|
  {
    seq(|fs|, i requires 0 <= i < |fs| => fs[i].payload)
  }

  /** The frames built for the first `offset` bytes, before END_STREAM is put back. */
  ghost predicate SplitUpTo(f: Frame, flags: byte, offset: nat, split: seq<Frame>)
    requires offset <= |f.payload|
  {
    && Chunks(f.payload) == Payloads(split) + Chunks(f.payload[offset..])
    && forall i :: 0 <= i < |split| ==> split[i] == NewFrame(f.kind, flags, f.sid, split[i].payload)
  }

  lemma SplittingStarts(f: Frame)
    ensures forall flags: byte :: SplitUpTo(f, flags, 0, [])
  {
    assert f.payload[0..] == f.payload;
  }

  /** The first chunk of what is left. */
  lemma FirstChunk(payload: seq<byte>, offset: nat)
    requires offset < |payload|
    ensures var left := |payload| - offset;
            var n := if MAX_FRAME_SIZE <= left then MAX_FRAME_SIZE else left;
            Chunks(payload[offset..]) == [payload[offset..offset + n]] + Chunks(payload[offset + n..])
  {
    var tail := payload[offset..];
    var n := if MAX_FRAME_SIZE <= |tail| then MAX_FRAME_SIZE else |tail|;
    assert tail[..n] == payload[offset..offset + n];
    assert tail[n..] == payload[offset + n..];
    if |tail| <= MAX_FRAME_SIZE {
      assert tail[..n] == tail && tail[n..] == [];
    }
  }

  lemma SplittingStep(f: Frame, flags: byte, offset: nat, split: seq<Frame>)
    requires offset < |f.payload| && SplitUpTo(f, flags, offset, split)
    ensures var left := |f.payload| - offset;
            var n := if MAX_FRAME_SIZE <= left then MAX_FRAME_SIZE else left;
            var chunk := f.payload[offset..offset + n];
            SplitUpTo(f, flags, offset + n, split + [NewFrame(f.kind, flags, f.sid, chunk)])
  {
    hide Chunks;
    FirstChunk(f.payload, offset);
    var left := |f.payload| - offset;
    var n := if MAX_FRAME_SIZE <= left then MAX_FRAME_SIZE else left;
    var chunk := f.payload[offset..offset + n];
    assert Payloads(split + [NewFrame(f.kind, flags, f.sid, chunk)]) == Payloads(split) + [chunk];
    ConcatAssociative(Payloads(split), [chunk], Chunks(f.payload[offset + n..]));
  }

  /** END_STREAM is put back on the last frame. */
  lemma SplittingEnds(f: Frame, flags: byte, split: seq<Frame>)
    requires SplitUpTo(f, flags, |f.payload|, split) && |split| > 0
    requires flags == ClearEndStream(f.flags)
    ensures var last := |split| - 1;
            && split[last].flags == flags
            && SplitUp(f) == split[..last] + [split[last].(flags := f.flags)]
  {
    assert f.payload[|f.payload|..] == [];
  }

  lemma GroupsStart()
    ensures Groups([]) == [[]]
  {
  }

  lemma GroupsStep(fs: seq<Frame>, i: nat)
    requires i < |fs|
    ensures var groups, f := Groups(fs[..i]), fs[i];
            var current := groups[|groups| - 1];
            Groups(fs[..i + 1]) ==
            if EncodedSize(current) + |f.payload| + 9 > MAX_FRAME_SIZE then groups + [[f]]
            else groups[..|groups| - 1] + [current + [f]]
  {
    assert fs[..i + 1][..i] == fs[..i];
  }

  /** The buffers built for the first `i` frames, and the size of the last of them. */
  ghost predicate BatchedUpTo(fs: seq<Frame>, i: nat, encoded: seq<seq<byte>>, currSize: nat)
    requires i <= |fs|
  {
    var groups := Groups(fs[..i]);
    && (forall g <- groups :: AllEncodable(g))
    && encoded == Buffers(groups)
    && currSize == EncodedSize(groups[|groups| - 1])
  }

  lemma BatchingStarts(fs: seq<Frame>)
    ensures BatchedUpTo(fs, 0, [[]], 0)
  {
    NoFrames();
    GroupsStart();
    assert fs[..0] == [];
    assert Buffers([[]]) == [EncodeFrames([])];
  }

  lemma BatchingEnds(fs: seq<Frame>, encoded: seq<seq<byte>>, currSize: nat)
    requires BatchedUpTo(fs, |fs|, encoded, currSize)
    ensures forall g <- Groups(fs) :: AllEncodable(g)
    ensures encoded == Buffers(Groups(fs))
  {
    assert fs[..|fs|] == fs;
  }

  lemma BatchingStep(fs: seq<Frame>, i: nat, encoded: seq<seq<byte>>, currSize: nat)
    requires i < |fs| && |fs[i].payload| <= MAX_PAYLOAD && BatchedUpTo(fs, i, encoded, currSize)
    ensures |encoded| > 0
    ensures var f, n := fs[i], |encoded| - 1;
            var frame := EncodeFrame(f);
            if currSize + |f.payload| + 9 > MAX_FRAME_SIZE then
              BatchedUpTo(fs, i + 1, encoded + [[] + frame], |frame|)
            else
              BatchedUpTo(fs, i + 1, encoded[..n] + [encoded[n] + frame], currSize + |frame|)
  {
    hide Groups, EncodedSize, Frames.EncodeFrames, EncodeFrame;
    var f := fs[i];
    var groups, next := Groups(fs[..i]), Groups(fs[..i + 1]);
    var n := |groups| - 1;
    GroupsStep(fs, i);
    EncodedSizeSteps();
    EncodeFramesOne(f);
    if currSize + |f.payload| + 9 > MAX_FRAME_SIZE {
      assert [] + [f] == [f] && [] + EncodeFrame(f) == EncodeFrame(f);
      assert EncodedSize([] + [f]) == EncodedSize([]) + 9 + |f.payload|;
      assert Buffers(next) == Buffers(groups) + [EncodeFrames([f])];
    } else {
      assert AllEncodable(groups[n]);
      EncodeFramesConcat(groups[n], [f]);
      assert EncodedSize(groups[n] + [f]) == EncodedSize(groups[n]) + 9 + |f.payload|;
      assert Buffers(next) == Buffers(groups)[..n] + [EncodeFrames(groups[n] + [f])];
    }
  }
}
