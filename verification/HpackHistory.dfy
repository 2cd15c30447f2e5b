/** The decoder's table over whole connections: what an index above 61 names, whatever bytes the
    peer has sent before. */
module HpackHistory {
  import opened Bytes
  import opened Integers
  import opened HeaderTable
  import opened HpackEncoder
  import opened HpackDecoder
  import opened Representations
  import opened Streams
  import opened StreamRuns

  /** What a representation asks of the table: 01 in front inserts its header, 001 sets the size. */
  ghost function StepOps(t: Table, b: seq<byte>): seq<TableOp>
    requires |b| > 0
  {
    match DecodeOne(t, b)
    case Stop(_) => []
    case Advance(_, emitted, _) =>
      var size := DecodeInteger(b, 5);
      if 0x20 <= b[0] < 0x40 && size.Decoded? then [Resized(size.value)]
      else if 0x40 <= b[0] < 0x80 && |emitted| > 0 then [Inserted(emitted[0])]
      else []
  }

  lemma StepTable(t: Table, b: seq<byte>)
    requires |b| > 0 && DecodeOne(t, b).Advance?
    ensures DecodeOne(t, b).table == Run(t, StepOps(t, b))
  {
    hide DecodeInteger, DecodeField, Lookup, Insert, Resize;
    StepDispatch(t, b);
    RunOfOne(t);
  }

  lemma RunOfOne(t: Table)
    ensures Run(t, []) == t
    ensures forall op :: Run(t, [op]) == HeaderTable.Apply(t, op)
  {
    hide Insert, Resize;
    forall op
      ensures Run(t, [op]) == HeaderTable.Apply(t, op)
    {
      assert [op][..0] == [];
    }
  }

  /** What a block asks of the table, as far as it is decoded. */
  ghost function BlockOps(t: Table, b: seq<byte>): seq<TableOp>
    decreases |b|
  {
    if |b| == 0 then []
    else
      match DecodeOne(t, b)
      case Stop(_) => []
      case Advance(used, _, t') =>
        StepMakesProgress(t, b);
        StepOps(t, b) + BlockOps(t', b[used..])
  }

  lemma {:induction false} RunOpsConcat(t: Table, a: seq<TableOp>, b: seq<TableOp>)
    ensures Run(t, a + b) == Run(Run(t, a), b)
  {
    hide HeaderTable.Apply;
    if |b| == 0 {
      assert a + b == a;
    } else {
      var n := |b| - 1;
      RunOpsConcat(t, a, b[..n]);
      assert (a + b)[..|a| + n] == a + b[..n];
    }
  }

  lemma {:induction false} BlockTable(t: Table, b: seq<byte>)
    ensures DecodeBlock(t, b).table == Run(t, BlockOps(t, b))
    decreases |b|
  {
    hide DecodeOne, StepOps;
    if |b| > 0 && DecodeOne(t, b).Advance? {
      var s := DecodeOne(t, b);
      StepMakesProgress(t, b);
      StepTable(t, b);
      BlockTable(s.table, b[s.used..]);
      RunOpsConcat(t, StepOps(t, b), BlockOps(s.table, b[s.used..]));
    }
  }

  /** What all blocks completed during a run ask of it. */
  ghost function RunOps(c: Connection, inputs: seq<Input>): seq<TableOp>
    requires RunFrames(c, inputs).Some?
  {
    if |inputs| == 0 then []
    else
      var n := |inputs| - 1;
      var before := RunFrames(c, inputs[..n]).value;
      RunOps(c, inputs[..n])
      + match Completes(before, inputs[n].frame) case None => [] case Some(block) => BlockOps(before.table, block)
  }

  lemma {:induction false} TableOfRun(c: Connection, inputs: seq<Input>)
    requires RunFrames(c, inputs).Some?
    ensures RunFrames(c, inputs).value.table == Run(c.table, RunOps(c, inputs))
  {
    hide After, DecodeBlock, BlockOps, Completes;
    if |inputs| > 0 {
      var n := |inputs| - 1;
      var before := RunFrames(c, inputs[..n]).value;
      TableOfRun(c, inputs[..n]);
      FrameTable(before, inputs[n]);
      match Completes(before, inputs[n].frame)
      case None =>
        RunOpsConcat(c.table, RunOps(c, inputs[..n]), []);
      case Some(block) =>
        BlockTable(before.table, block);
        RunOpsConcat(c.table, RunOps(c, inputs[..n]), BlockOps(before.table, block));
    } else {
      RunOfOne(c.table);
    }
  }

  /** Every header that a connection's blocks have inserted, the newest first. */
  ghost function InsertedHeaders(inputs: seq<Input>): seq<Header>
    requires RunFrames(NEW_CONNECTION, inputs).Some?
  {
    History(RunOps(NEW_CONNECTION, inputs))
  }

  /** After any run from a new connection, the index 62 + k of a field, or of a literal's name, is
      that of the k-th newest header inserted so far, as long as the table holds so many; else a
      field is rejected, and a literal makes the decoder throw. */
  lemma IndexNamesNewest(inputs: seq<Input>, k: nat, form: Literal, value: Spelling, rest: seq<byte>)
    requires RunFrames(NEW_CONNECTION, inputs).Some? && 62 + k < TWO_32 && FitsString(value)
    ensures var t, newest := RunFrames(NEW_CONNECTION, inputs).value.table, InsertedHeaders(inputs);
            var field := EncodeInteger(0x80, 7, 62 + k);
            var literal := LiteralBytes(form, 62 + k) + SpellingBytes(value);
            && t.entries <= newest
            && if k < |t.entries| then
                 && DecodeOne(t, field + rest) == Advance(|field|, [newest[k]], t)
                 && var h := Header(newest[k].name, value.text);
                    DecodeOne(t, literal + rest)
                      == Advance(|literal|, [h], if form.Incremental? then Insert(t, h) else t)
               else DecodeOne(t, field + rest) == Stop(Rejected) && DecodeOne(t, literal + rest) == Stop(Threw)
  {
    hide DecodeOne, RunFrames, RunOps, LiteralBytes, SpellingBytes, FitsString, Insert, EncodeInteger, StaticTable;
    hide Run, History;
    Prefixes();
    var t := RunFrames(NEW_CONNECTION, inputs).value.table;
    TableOfRun(NEW_CONNECTION, inputs);
    AnyRun(DEFAULT_MAX_SIZE, RunOps(NEW_CONNECTION, inputs));
    RepresentationDecodes(t, IndexedField(62 + k), rest);
    RepresentationDecodes(t, LiteralField(form, Index(62 + k), value), rest);
  }
}
