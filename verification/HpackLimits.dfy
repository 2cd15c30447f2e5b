/** How far a peer can move the size limit of the decoder's table. RFC 7541, section 6.3, makes an
    update above the limit in force by SETTINGS a decoding error; the code accepts any. */
module HpackLimits {
  import opened Bytes
  import opened Integers
  import opened HeaderTable
  import opened HpackDecoder
  import opened HpackBlocks
  import opened Streams
  import opened StreamRuns

  predicate IsUpdate(first: byte) {
    0x20 <= first < 0x40
  }

  /** The size that a representation asks for, if it is an update. */
  function SizeOf(b: seq<byte>): seq<nat>
    requires |b| > 0
  {
    var size := DecodeInteger(b, 5);
    if IsUpdate(b[0]) && size.Decoded? then [size.value] else []
  }

  /** The sizes that the updates of a block ask for, in order, as far as it is decoded. */
  ghost function Updates(t: Table, b: seq<byte>): seq<nat>
    decreases |b|
  {
    if |b| == 0 then []
    else
      match DecodeOne(t, b)
      case Stop(_) => []
      case Advance(used, _, t') =>
        StepMakesProgress(t, b);
        SizeOf(b) + Updates(t', b[used..])
  }

  /** The limit is never above `limit` while the block is decoded. */
  ghost predicate StaysWithin(t: Table, b: seq<byte>, limit: nat)
    decreases |b|
  {
    t.maxSize <= limit &&
    (|b| > 0 ==>
       match DecodeOne(t, b)
       case Stop(_) => true
       case Advance(used, _, t') =>
         StepMakesProgress(t, b);
         StaysWithin(t', b[used..], limit))
  }

  lemma StepLimit(t: Table, b: seq<byte>)
    requires |b| > 0 && DecodeOne(t, b).Advance?
    ensures DecodeOne(t, b).table.maxSize == LastOr(SizeOf(b), t.maxSize)
    ensures |SizeOf(b)| <= 1
  {
    hide DecodeInteger, DecodeField, Lookup, Fit;
    StepDispatch(t, b);
  }

  predicate AllWithin(sizes: seq<nat>, limit: nat) {
    forall i :: 0 <= i < |sizes| ==> sizes[i] <= limit
  }

  function LastOr(sizes: seq<nat>, default: nat): nat {
    if |sizes| == 0 then default else sizes[|sizes| - 1]
  }

  /** A block leaves the limit at its last update. */
  lemma {:induction false} LimitOfBlock(t: Table, b: seq<byte>)
    ensures DecodeBlock(t, b).table.maxSize == LastOr(Updates(t, b), t.maxSize)
    decreases |b|
  {
    hide DecodeOne;
    if |b| > 0 && DecodeOne(t, b).Advance? {
      var s := DecodeOne(t, b);
      StepMakesProgress(t, b);
      StepLimit(t, b);
      LimitOfBlock(s.table, b[s.used..]);
    }
  }

  lemma {:induction false} WithinExactly(t: Table, b: seq<byte>, limit: nat)
    ensures StaysWithin(t, b, limit) <==> t.maxSize <= limit && AllWithin(Updates(t, b), limit)
    decreases |b|
  {
    hide DecodeOne;
    if |b| > 0 && DecodeOne(t, b).Advance? {
      var s := DecodeOne(t, b);
      StepMakesProgress(t, b);
      StepLimit(t, b);
      var rest := Updates(s.table, b[s.used..]);
      WithinExactly(s.table, b[s.used..], limit);
      assert Updates(t, b) == SizeOf(b) + rest;
      AllBelowConcat(SizeOf(b), rest, limit);
    }
  }

  /** The sizes set by the blocks completed during a run. */
  ghost function RunUpdates(c: Connection, inputs: seq<Input>): seq<nat>
    requires RunFrames(c, inputs).Some?
  {
    if |inputs| == 0 then []
    else
      var n := |inputs| - 1;
      var before := RunFrames(c, inputs[..n]).value;
      RunUpdates(c, inputs[..n])
      + match Completes(before, inputs[n].frame) case None => [] case Some(block) => Updates(before.table, block)
  }

  ghost predicate RunStaysWithin(c: Connection, inputs: seq<Input>, limit: nat)
    requires RunFrames(c, inputs).Some?
  {
    if |inputs| == 0 then c.table.maxSize <= limit
    else
      var n := |inputs| - 1;
      var before := RunFrames(c, inputs[..n]).value;
      && RunStaysWithin(c, inputs[..n], limit)
      && match Completes(before, inputs[n].frame)
         case None => true
         case Some(block) => StaysWithin(before.table, block, limit)
  }

  /** After a run the limit is that of the last update in a completed block. */
  lemma {:induction false} LimitOfRun(c: Connection, inputs: seq<Input>)
    requires RunFrames(c, inputs).Some?
    ensures RunFrames(c, inputs).value.table.maxSize == LastOr(RunUpdates(c, inputs), c.table.maxSize)
  {
    hide After, DecodeBlock, Updates, Completes;
    if |inputs| > 0 {
      var n := |inputs| - 1;
      var before := RunFrames(c, inputs[..n]).value;
      LimitOfRun(c, inputs[..n]);
      FrameTable(before, inputs[n]);
      if Completes(before, inputs[n].frame).Some? {
        LimitOfBlock(before.table, Completes(before, inputs[n].frame).value);
      }
    }
  }

  /** On a new connection the limit is 4096 until the first update. */
  lemma LimitFromStart(inputs: seq<Input>)
    requires RunFrames(NEW_CONNECTION, inputs).Some?
    ensures RunFrames(NEW_CONNECTION, inputs).value.table.maxSize == LastOr(RunUpdates(NEW_CONNECTION, inputs), 4096)
  {
    hide RunFrames, RunUpdates;
    LimitOfRun(NEW_CONNECTION, inputs);
  }

  /** The limit stays at most the 4096 of a new table, at every moment of a run, exactly when no
      update in a completed block exceeds that. */
  lemma LimitKept(inputs: seq<Input>)
    requires RunFrames(NEW_CONNECTION, inputs).Some?
    ensures RunStaysWithin(NEW_CONNECTION, inputs, 4096) <==> AllWithin(RunUpdates(NEW_CONNECTION, inputs), 4096)
  {
    RunWithinExactly(NEW_CONNECTION, inputs, 4096);
  }

  lemma {:induction false} RunWithinExactly(c: Connection, inputs: seq<Input>, limit: nat)
    requires RunFrames(c, inputs).Some? && c.table.maxSize <= limit
    ensures RunStaysWithin(c, inputs, limit) <==> AllWithin(RunUpdates(c, inputs), limit)
  {
    hide After, DecodeBlock, Updates, Completes, StaysWithin;
    if |inputs| > 0 {
      var n := |inputs| - 1;
      var before := RunFrames(c, inputs[..n]).value;
      var sizes := RunUpdates(c, inputs[..n]);
      RunWithinExactly(c, inputs[..n], limit);
      LimitOfRun(c, inputs[..n]);
      match Completes(before, inputs[n].frame)
      case None => assert RunUpdates(c, inputs) == sizes + [] == sizes;
      case Some(block) =>
        WithinExactly(before.table, block, limit);
        assert RunUpdates(c, inputs) == sizes + Updates(before.table, block);
        AllBelowConcat(sizes, Updates(before.table, block), limit);
        if AllWithin(sizes, limit) {
          LastBelow(sizes, c.table.maxSize, limit);
        }
    }
  }

  lemma AllBelowConcat(a: seq<nat>, b: seq<nat>, limit: nat)
    ensures AllWithin(a + b, limit) <==> AllWithin(a, limit) && AllWithin(b, limit)
  {
    if AllWithin(a + b, limit) {
      assert forall i :: 0 <= i < |a| ==> a[i] == (a + b)[i];
      assert forall i :: 0 <= i < |b| ==> b[i] == (a + b)[|a| + i];
    }
  }

  lemma LastBelow(sizes: seq<nat>, default: nat, limit: nat)
    requires default <= limit && AllWithin(sizes, limit)
    ensures LastOr(sizes, default) <= limit
  {
  }

  /** An update to 2^32 - 1. */
  function LargestUpdate(): seq<byte> {
    UpdateFlags();
    EncodeInteger(0x20, 5, 0xffff_ffff)
  }

  /** Six bytes that lift the limit of any table as far as it goes. */
  lemma LimitLifted(t: Table)
    ensures |LargestUpdate()| == 6
    ensures var r := DecodeBlock(t, LargestUpdate());
            r.outcome == Accepted && r.table.maxSize == 0xffff_ffff
  {
    hide DecodeInteger, Fit, Pow2;
    var b := LargestUpdate();
    UpdateFlags();
    IntegerRoundTrip(0x20, 5, 0xffff_ffff, []);
    IntegerLength(0x20, 5, 0xffff_ffff);
    assert b + [] == b && b[0] == 0x3f;
    StepDispatch(t, b);
    DecodeSingle(t, b);
  }

  lemma UpdateFlags()
    ensures Mask(5) == 0x1f && PrefixOf(0x20, 5) == 0
  {
    Pow2Literals();
  }
}
