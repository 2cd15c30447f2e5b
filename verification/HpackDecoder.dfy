/** The HPACK header-block decoder (RFC 7541, section 6), which must cope with any bytes. */
module HpackDecoder {
  import opened Bytes
  import opened Huffman
  import opened HuffmanCoder
  import opened Integers
  import opened HeaderTable

  /** How a call ends: it returns true, returns false, throws the out-of-range exception, or
      runs into the undefined shift of an overlong integer. */
  datatype Outcome = Accepted | Rejected | Threw | Undefined

  // ---------------------------------------------------------------- one representation

  datatype StringResult = Read(text: seq<byte>, used: nat) | Unreadable(outcome: Outcome)

  ghost function DecodeString(b: seq<byte>): (r: StringResult)
    ensures r.Read? ==> 0 < r.used <= |b|
    ensures r.Unreadable? ==> r.outcome != Accepted
  {
    if |b| == 0 then Unreadable(Rejected)
    else
      match DecodeInteger(b, 7)
      case Truncated => Unreadable(Rejected)
      case Undefined => Unreadable(Outcome.Undefined)
      case Decoded(len, n) =>
        if len > |b| - n then Unreadable(Rejected)
        else if b[0] < 0x80 then Read(b[n..n + len], n + len)
        else
          match HuffmanDecode(b[n..n + len])
          case None => Unreadable(Rejected)
          case Some(text) => Read(text, n + len)
  }

  /** One loop iteration: either it consumes `used` bytes, delivers at most one header and
      leaves a table, or the call ends. */
  datatype Step =
    | Advance(used: nat, emitted: seq<Header>, table: Table)
    | Stop(outcome: Outcome)

  ghost function DecodeSizeUpdate(t: Table, b: seq<byte>): Step {
    match DecodeInteger(b, 5)
    case Truncated => Stop(Rejected)
    case Undefined => Stop(Outcome.Undefined)
    case Decoded(size, n) => Advance(n, [], Resize(t, size))
  }

  ghost function DecodeIndexed(t: Table, b: seq<byte>): Step {
    match DecodeInteger(b, 7)
    case Truncated => Stop(Rejected)
    case Undefined => Stop(Outcome.Undefined)
    case Decoded(index, n) =>
      match Lookup(t, index)
      case None => Stop(Rejected)
      case Some(h) => Advance(n, [h], t)
  }

  /** The name of a literal: from the table when `index` is positive, else spelled out. */
  ghost function DecodeName(t: Table, index: nat, b: seq<byte>): (r: StringResult)
    ensures r.Read? ==> r.used <= |b|
    ensures r.Unreadable? ==> r.outcome != Accepted
  {
    if index == 0 then DecodeString(b)
    else
      match Lookup(t, index)
      case None => Unreadable(Threw)
      case Some(h) => Read(h.name, 0)
  }

  datatype FieldResult = Field(h: Header, length: nat) | NoField(outcome: Outcome)

  /** A literal header field: index or name, then value. */
  ghost function DecodeField(t: Table, b: seq<byte>, width: nat): (r: FieldResult)
    requires 4 <= width <= 7
    ensures r.Field? ==> 0 < r.length <= |b|
    ensures r.NoField? ==> r.outcome != Accepted
  {
    match DecodeInteger(b, width)
    case Truncated => NoField(Rejected)
    case Undefined => NoField(Outcome.Undefined)
    case Decoded(index, n) =>
      match DecodeName(t, index, b[n..])
      case Unreadable(outcome) => NoField(outcome)
      case Read(name, m) =>
        match DecodeString(b[n + m..])
        case Unreadable(outcome) => NoField(outcome)
        case Read(value, k) => Field(Header(name, value), n + m + k)
  }

  ghost function DecodeLiteral(t: Table, b: seq<byte>, width: nat, shouldAdd: bool): Step
    requires 4 <= width <= 7
  {
    match DecodeField(t, b, width)
    case NoField(outcome) => Stop(outcome)
    case Field(h, length) => Advance(length, [h], if shouldAdd then Insert(t, h) else t)
  }

  ghost function DecodeOne(t: Table, b: seq<byte>): (r: Step)
    requires |b| > 0
    ensures r.Stop? ==> r.outcome != Accepted
  {
    if 0x20 <= b[0] < 0x40 then DecodeSizeUpdate(t, b)
    else if b[0] >= 0x80 then DecodeIndexed(t, b)
    else if b[0] >= 0x40 then DecodeLiteral(t, b, 6, true)
    else DecodeLiteral(t, b, 4, false)
  }

  lemma StepMakesProgress(t: Table, b: seq<byte>)
    requires |b| > 0 && DecodeOne(t, b).Advance?
    ensures 0 < DecodeOne(t, b).used <= |b|
    ensures |DecodeOne(t, b).emitted| <= 1
    ensures WithinBounds(t) ==> WithinBounds(DecodeOne(t, b).table)
  {
  }

  // ---------------------------------------------------------------- a whole block

  datatype Result = Result(outcome: Outcome, headers: seq<Header>, table: Table)

  ghost function DecodeBlock(t: Table, b: seq<byte>): (r: Result)
    decreases |b|
  {
    if |b| == 0 then Result(Accepted, [], t)
    else
      match DecodeOne(t, b)
      case Stop(outcome) => Result(outcome, [], t)
      case Advance(used, emitted, t') =>
        StepMakesProgress(t, b);
        var rest := DecodeBlock(t', b[used..]);
        rest.(headers := emitted + rest.headers)
  }

  class Decoder {
    const table: DynamicTable

    constructor ()
      ensures table.Valid() && table.View() == Table(DEFAULT_MAX_SIZE, []) && fresh(table)
    {
      table := new DynamicTable();
    }

    method Reset()
      requires table.Valid()
      modifies table
      ensures table.Valid() && table.View() == Table(DEFAULT_MAX_SIZE, [])
    {
      table.Reset();
    }

    /** `p` is the cursor. Headers are delivered as they are decoded, in order; whatever the
        outcome, the table is left valid. */
    method DecodeLowmem(input: seq<byte>) returns (outcome: Outcome, delivered: seq<Header>)
      requires table.Valid()
      modifies table
      ensures table.Valid()
      ensures DecodeBlock(old(table.View()), input) == Result(outcome, delivered, table.View())
    {
      hide DecodeOne, DecodeField, DecodeBlock, Resumes, Insert, Resize, Lookup, DecodeInteger, TotalSize;
      ghost var start := table.View();
      delivered := [];
      var p := 0;
      StartDecoding(start, input);
      while p < |input|
        invariant p <= |input|
        invariant table.Valid()
        invariant Resumes(start, input, table.View(), p, delivered)
        decreases |input| - p
      {
        ghost var t, b := table.View(), input[p..];
        StepDispatch(t, b);
        StopHere(start, input, t, p, delivered);
        assert b[0] == input[p];
        if 0x20 <= input[p] < 0x40 {
          var size := ReadInteger(input, p, 5);
          if !size.Decoded? {
            return if size.Truncated? then Rejected else Outcome.Undefined, delivered;
          }
          table.SetMaxSize(size.value);
          NextStep(start, input, t, p, delivered);
          assert delivered + [] == delivered;
          p := p + size.used;
          continue;
        }
        if input[p] >= 0x80 {
          var index := ReadInteger(input, p, 7);
          if !index.Decoded? {
            return if index.Truncated? then Rejected else Outcome.Undefined, delivered;
          }
          LookupZero(t);
          if index.value == 0 {
            return Rejected, delivered;
          }
          var h := table.At(index.value);
          if h.None? {
            return Rejected, delivered;
          }
          NextStep(start, input, t, p, delivered);
          p := p + index.used;
          delivered := delivered + [h.value];
          continue;
        }
        var shouldAdd := input[p] >= 0x40;
        var field := ReadField(input, p, if shouldAdd then 6 else 4);
        if field.NoField? {
          return field.outcome, delivered;
        }
        if shouldAdd {
          table.Add(field.h);
        }
        NextStep(start, input, t, p, delivered);
        p := p + field.length;
        delivered := delivered + [field.h];
      }
      EndDecoding(start, input, table.View(), delivered);
      outcome := Accepted;
    }

    /** The literal branch of the loop, up to the point where both name and value are known. */
    method ReadField(input: seq<byte>, p: nat, width: nat) returns (r: FieldResult)
      requires table.Valid() && p < |input| && 4 <= width <= 7
      ensures r == DecodeField(table.View(), input[p..], width)
    {
      hide DecodeString, Lookup;
      ghost var t, b := table.View(), input[p..];
      var index := ReadInteger(input, p, width);
      if !index.Decoded? {
        return NoField(if index.Truncated? then Rejected else Outcome.Undefined);
      }
      var q := p + index.used;
      assert b[index.used..] == input[q..];
      var name;
      if index.value > 0 {
        var h := table.At(index.value);
        if h.None? {
          return NoField(Threw);
        }
        name := Read(h.value.name, 0);
      } else {
        name := ReadString(input, q);
        if name.Unreadable? {
          return NoField(name.outcome);
        }
      }
      assert name == DecodeName(t, index.value, b[index.used..]);
      q := q + name.used;
      assert b[index.used + name.used..] == input[q..];
      var value := ReadString(input, q);
      if value.Unreadable? {
        return NoField(value.outcome);
      }
      r := Field(Header(name.text, value.text), index.used + name.used + value.used);
    }
  }

  method ReadString(input: seq<byte>, p: nat) returns (r: StringResult)
    requires p <= |input|
    ensures r == DecodeString(input[p..])
  {
    hide DecodeInteger, HuffmanEncode, HuffmanDecode;
    ghost var b := input[p..];
    if p == |input| {
      return Unreadable(Rejected);
    }
    var isHuffman := input[p] >= 0x80;
    var len := ReadInteger(input, p, 7);
    if !len.Decoded? {
      return Unreadable(if len.Truncated? then Rejected else Outcome.Undefined);
    }
    var q := p + len.used;
    if len.value > |input| - q {
      return Unreadable(Rejected);
    }
    var body := input[q..q + len.value];
    assert body == b[len.used..len.used + len.value];
    if isHuffman {
      var ok, text, _ := DecodeHuffman(body);
      if !ok {
        return Unreadable(Rejected);
      }
      r := Read(text, len.used + len.value);
    } else {
      r := Read(body, len.used + len.value);
    }
  }

  // ---------------------------------------------------------------- unfolding the specification

  lemma StepDispatch(t: Table, b: seq<byte>)
    requires |b| > 0
    ensures 0x20 <= b[0] < 0x40 ==> DecodeOne(t, b) == DecodeSizeUpdate(t, b)
    ensures b[0] >= 0x80 ==> DecodeOne(t, b) == DecodeIndexed(t, b)
    ensures 0x40 <= b[0] < 0x80 ==> DecodeOne(t, b) == DecodeLiteral(t, b, 6, true)
    ensures b[0] < 0x20 ==> DecodeOne(t, b) == DecodeLiteral(t, b, 4, false)
  {
  }

  /** Having delivered `done` and moved the cursor to `p`, what is left to do is to decode the
      rest with the current table. */
  ghost predicate Resumes(start: Table, input: seq<byte>, t: Table, p: nat, done: seq<Header>)
    requires p <= |input|
  {
    var rest := DecodeBlock(t, input[p..]);
    DecodeBlock(start, input) == rest.(headers := done + rest.headers)
  }

  lemma StartDecoding(start: Table, input: seq<byte>)
    ensures Resumes(start, input, start, 0, [])
  {
    hide DecodeBlock;
    assert input[0..] == input;
  }

  lemma EndDecoding(start: Table, input: seq<byte>, t: Table, done: seq<Header>)
    requires Resumes(start, input, t, |input|, done)
    ensures DecodeBlock(start, input) == Result(Accepted, done, t)
  {
    assert input[|input|..] == [];
  }

  lemma StopHere(start: Table, input: seq<byte>, t: Table, p: nat, done: seq<Header>)
    requires p < |input| && Resumes(start, input, t, p, done)
    ensures DecodeOne(t, input[p..]).Stop? ==>
              DecodeBlock(start, input) == Result(DecodeOne(t, input[p..]).outcome, done, t)
  {
    hide DecodeOne;
  }

  lemma NextStep(start: Table, input: seq<byte>, t: Table, p: nat, done: seq<Header>)
    requires p < |input| && Resumes(start, input, t, p, done)
    requires DecodeOne(t, input[p..]).Advance?
    ensures var s := DecodeOne(t, input[p..]);
            && p + s.used <= |input|
            && Resumes(start, input, s.table, p + s.used, done + s.emitted)
  {
    hide DecodeOne;
    var b, s := input[p..], DecodeOne(t, input[p..]);
    StepMakesProgress(t, b);
    assert b[s.used..] == input[p + s.used..];
    var rest := DecodeBlock(s.table, input[p + s.used..]);
    assert done + (s.emitted + rest.headers) == (done + s.emitted) + rest.headers;
  }

  lemma LookupZero(t: Table)
    ensures Lookup(t, 0) == None
  {
  }
}
