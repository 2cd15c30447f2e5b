/** Receive buffers that are cut short: when their segmentation is defined, and when reading in
    two parts comes to the same as reading at once. */
module FrameBuffers {
  import opened Bytes
  import opened Frames

  // ---------------------------------------------------------------- definedness

  /** A complete padded frame without payload, not even the pad length. */
  predicate EmptyPadded(b: seq<byte>) {
    |b| >= 9 && FromBytes24(b) == 0 && NewFrame(b[3], b[4], 0, []).Has(PADDED) && CanBePadded(b[3])
  }

  /** Decoding a frame reads past its payload exactly then. */
  lemma FrameUndefined(b: seq<byte>)
    ensures DecodeFrame(b).0 == Status.Undefined <==> EmptyPadded(b)
  {
    hide FromBytes24, FromBytes31, WithPriority;
  }

  /** The cursor comes to stand at `p`. */
  predicate CutAt(b: seq<byte>, p: nat)
    requires p <= |b|
    decreases |b|
  {
    p == 0 ||
    (|b| >= 3 && 9 + FromBytes24(b) <= p && CutAt(b[9 + FromBytes24(b)..], p - (9 + FromBytes24(b))))
  }

  /** The cursor can read a length here, and the frame is defined. */
  predicate SafeAt(b: seq<byte>, p: nat)
    requires p <= |b|
  {
    |b| - p >= 3 && !EmptyPadded(b[p..])
  }

  lemma SafeFirst(b: seq<byte>)
    ensures SafeAt(b, 0) <==> |b| >= 3 && DecodeFrame(b).0 != Status.Undefined
  {
    hide DecodeFrame, EmptyPadded;
    assert b[0..] == b;
    FrameUndefined(b);
  }

  lemma SafeLater(b: seq<byte>, next: nat, p: nat)
    requires next <= |b| && p <= |b| - next
    ensures SafeAt(b[next..], p) <==> SafeAt(b, next + p)
  {
    assert b[next..][p..] == b[next + p..];
  }

  /** The segmentation of a buffer is defined exactly when it is safe wherever the cursor comes
      to stand. */
  lemma {:induction false} SegmentDefined(b: seq<byte>)
    ensures Segment(b).defined <==> forall p: nat :: p < |b| && CutAt(b, p) ==> SafeAt(b, p)
    decreases |b|
  {
    hide FromBytes24, DecodeFrame, SafeAt;
    SafeFirst(b);
    if |b| >= 3 && SafeAt(b, 0) {
      var next := 9 + FromBytes24(b);
      if next < |b| {
        var rest := b[next..];
        SegmentDefined(rest);
        forall p: nat | p < |rest|
          ensures CutAt(rest, p) == CutAt(b, next + p)
          ensures SafeAt(rest, p) == SafeAt(b, next + p)
        {
          SafeLater(b, next, p);
        }
        if Segment(b).defined {
          forall p: nat | p < |b| && CutAt(b, p)
            ensures SafeAt(b, p)
          {
            assert p == 0 || CutAt(rest, p - next);
            assert p == 0 || SafeAt(rest, p - next) == SafeAt(b, next + (p - next));
          }
        }
      }
    }
  }

  /** A frame, and a single byte, whose treatment is undefined. */
  lemma UndefinedBuffers()
    ensures DecodeFrame(FrameHeader(0, DATA_FRAME, PADDED, 1)).0 == Status.Undefined
    ensures !Segment([0]).defined
  {
    var b := FrameHeader(0, DATA_FRAME, PADDED, 1);
    HeaderFields(0, DATA_FRAME, PADDED, 1, []);
    assert b + [] == b;
    FrameUndefined(b);
  }

  // ---------------------------------------------------------------- two reads

  /** A buffer that ends where a frame ends, or that is not read to its end anyway. */
  predicate Whole(b: seq<byte>)
    decreases |b|
  {
    |b| == 0 ||
    (|b| >= 3 && (EmptyPadded(b) || (9 + FromBytes24(b) <= |b| && Whole(b[9 + FromBytes24(b)..]))))
  }

  function Followed(first: Segments, second: Segments): Segments {
    if first.defined then Segments(second.defined, first.frames + second.frames) else first
  }

  /** A frame is decoded without looking behind it. */
  lemma FrameLocal(a: seq<byte>, b: seq<byte>)
    requires |a| >= 3
    ensures FromBytes24(a + b) == FromBytes24(a)
    ensures |a| >= 9 + FromBytes24(a) ==> DecodeFrame(a + b) == DecodeFrame(a)
  {
    hide DecodePayload, FromBytes31;
    var size := FromBytes24(a);
    if |a| >= 9 + size {
      assert (a + b)[9..9 + size] == a[9..9 + size];
      Sid(a, b);
    }
  }

  lemma Sid(a: seq<byte>, b: seq<byte>)
    requires |a| >= 9
    ensures FromBytes31((a + b)[5..]) == FromBytes31(a[5..])
  {
    var c, d := (a + b)[5..], a[5..];
    assert c[0] == d[0] && c[1] == d[1] && c[2] == d[2] && c[3] == d[3];
  }

  lemma EmptyPaddedLocal(a: seq<byte>, b: seq<byte>)
    requires EmptyPadded(a)
    ensures EmptyPadded(a + b)
  {
    hide Frame.Has;
  }

  lemma {:induction false} WholeThen(a: seq<byte>, b: seq<byte>)
    requires Whole(a)
    ensures Segment(a + b) == Followed(Segment(a), Segment(b))
    decreases |a|
  {
    hide DecodeFrame, FromBytes24, EmptyPadded;
    if |a| == 0 {
      assert a + b == b;
      assert [] + Segment(b).frames == Segment(b).frames;
    } else {
      FrameLocal(a, b);
      FrameUndefined(a);
      if EmptyPadded(a) {
        EmptyPaddedLocal(a, b);
        FrameUndefined(a + b);
      } else {
        var next := 9 + FromBytes24(a);
        var f := DecodeFrame(a).1;
        WholeThen(a[next..], b);
        assert (a + b)[next..] == a[next..] + b;
        ConcatAssociative([f], Segment(a[next..]).frames, Segment(b).frames);
        SegmentFirst(a);
        SegmentFirst(a + b);
      }
    }
  }

  /** One step of the segmentation, with nothing special about the end of the buffer. */
  lemma SegmentFirst(b: seq<byte>)
    requires |b| >= 3 && DecodeFrame(b).0 != Status.Undefined && 9 + FromBytes24(b) <= |b|
    ensures var rest := Segment(b[9 + FromBytes24(b)..]);
            Segment(b) == Segments(rest.defined, [DecodeFrame(b).1] + rest.frames)
  {
    hide DecodeFrame, FromBytes24;
    if 9 + FromBytes24(b) == |b| {
      assert b[|b|..] == [];
    }
  }

  function Zeros(n: nat): seq<byte> {
    seq(n, _ => 0)
  }

  lemma ZerosHaveAFrame(n: nat)
    ensures n >= 3 ==> |Segment(Zeros(n)).frames| > 0
  {
    hide DecodeFrame;
    if n >= 3 {
      FrameUndefined(Zeros(n));
    }
  }

  /** Bytes whose frame is completed by the zeros that make up its length. */
  lemma Completed(a: seq<byte>, n: nat)
    requires |a| + n >= 9 && 9 + FromBytes24(a + Zeros(n)) == |a| + n
    ensures Segment(a + Zeros(n)).frames == [] <==> !Segment(a + Zeros(n)).defined
    ensures |Segment(a + Zeros(n)).frames| <= 1
    ensures |a| < 3 ==> Segment(a + Zeros(n)).defined
  {
    hide DecodeFrame, FromBytes24;
    FrameUndefined(a + Zeros(n));
    assert |a| < 3 ==> (a + Zeros(n))[4] == 0;
  }

  /** Any other buffer has a continuation for which it matters where the read ended. */
  lemma {:induction false} NotWhole(a: seq<byte>) returns (b: seq<byte>)
    requires !Whole(a)
    ensures Segment(a + b) != Followed(Segment(a), Segment(b))
    decreases |a|
  {
    hide DecodeFrame, FromBytes24, EmptyPadded;
    if |a| < 3 {
      var size := FromBytes24(a + Zeros(3));
      var n := 9 + size - |a|;
      b := Zeros(n);
      SameLength(a, n);
      Completed(a, n);
    } else {
      var next := 9 + FromBytes24(a);
      FrameUndefined(a);
      if next > |a| {
        b := Zeros(next - |a|);
        FrameLocal(a, b);
        Completed(a, next - |a|);
        ZerosHaveAFrame(next - |a|);
      } else {
        b := NotWhole(a[next..]);
        FrameLocal(a, b);
        assert (a + b)[next..] == a[next..] + b;
        SegmentFirst(a);
        SegmentFirst(a + b);
        SameFront(DecodeFrame(a).1, Segment(a[next..]), Segment(b), Segment(a[next..] + b));
      }
    }
  }

  lemma SameLength(a: seq<byte>, n: nat)
    requires |a| < 3 && n >= 3
    ensures FromBytes24(a + Zeros(n)) == FromBytes24(a + Zeros(3))
  {
    var c, d := a + Zeros(n), a + Zeros(3);
    assert c[0] == d[0] && c[1] == d[1] && c[2] == d[2];
  }

  lemma SameFront(f: Frame, x: Segments, y: Segments, z: Segments)
    requires z != Followed(x, y)
    ensures Segments(z.defined, [f] + z.frames) != Followed(Segments(x.defined, [f] + x.frames), y)
  {
    if x.defined {
      ConcatAssociative([f], x.frames, y.frames);
    }
    assert ([f] + z.frames)[1..] == z.frames;
    assert ([f] + Followed(x, y).frames)[1..] == Followed(x, y).frames;
  }

  /** Where a read ends makes no difference, whatever comes next, exactly when it ends where a
      frame ends. */
  lemma ReadsJoin(a: seq<byte>)
    ensures Whole(a) <==> forall b: seq<byte> :: Segment(a + b) == Followed(Segment(a), Segment(b))
  {
    hide Whole, Segment;
    if Whole(a) {
      forall b: seq<byte>
        ensures Segment(a + b) == Followed(Segment(a), Segment(b))
      {
        WholeThen(a, b);
      }
    } else {
      var b := NotWhole(a);
    }
  }
}
