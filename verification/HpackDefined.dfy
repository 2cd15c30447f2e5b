/** Which header blocks run into the decoder's undefined shift, and which cannot. */
module HpackDefined {
  import opened Bytes
  import opened Integers
  import opened HeaderTable
  import opened HpackDecoder
  import opened HpackBlocks

  /** How many bits of a representation's first byte belong to its integer. */
  function PrefixWidth(first: byte): (n: nat)
    ensures 4 <= n <= 7
  {
    if 0x20 <= first < 0x40 then 5 else if first >= 0x80 then 7 else if first >= 0x40 then 6 else 4
  }

  predicate IsLiteral(first: byte) {
    first < 0x20 || 0x40 <= first < 0x80
  }

  /** The length of a literal's name or value is overlong. */
  ghost predicate TextOverlong(t: Table, b: seq<byte>, width: nat)
    requires 4 <= width <= 7
  {
    DecodeInteger(b, width).Decoded? &&
    var index, n := DecodeInteger(b, width).value, DecodeInteger(b, width).used;
    || (index == 0 && Overlong(b[n..], 7))
    || (var name := DecodeName(t, index, b[n..]); name.Read? && Overlong(b[n + name.used..], 7))
  }

  /** One of the integers of the representation at the front of `b` is overlong. */
  ghost predicate StepOverlong(t: Table, b: seq<byte>)
    requires |b| > 0
  {
    var width := PrefixWidth(b[0]);
    Overlong(b, width) || (IsLiteral(b[0]) && TextOverlong(t, b, width))
  }

  lemma StringUndefined(b: seq<byte>)
    ensures DecodeString(b) == Unreadable(Outcome.Undefined) <==> Overlong(b, 7)
  {
    hide DecodeInteger, Overlong;
    IntegerUndefined(b, 7);
    assert |b| == 0 ==> !Overlong(b, 7) by {
      NothingOverlong(b, 7);
    }
  }

  lemma NothingOverlong(b: seq<byte>, n: nat)
    requires n <= 8
    ensures Overlong(b, n) ==> |b| >= 7
  {
  }

  lemma FieldUndefined(t: Table, b: seq<byte>, width: nat)
    requires 4 <= width <= 7
    ensures DecodeField(t, b, width) == NoField(Outcome.Undefined) <==>
            Overlong(b, width) || TextOverlong(t, b, width)
  {
    hide DecodeInteger, DecodeString, Overlong, Lookup;
    IntegerUndefined(b, width);
    var i := DecodeInteger(b, width);
    if i.Decoded? {
      StringUndefined(b[i.used..]);
      var name := DecodeName(t, i.value, b[i.used..]);
      if name.Read? {
        StringUndefined(b[i.used + name.used..]);
      }
    }
  }

  lemma StepUndefined(t: Table, b: seq<byte>)
    requires |b| > 0
    ensures DecodeOne(t, b) == Stop(Outcome.Undefined) <==> StepOverlong(t, b)
  {
    hide DecodeInteger, DecodeField, Overlong, TextOverlong, Insert, Resize, Lookup;
    StepDispatch(t, b);
    IntegerUndefined(b, PrefixWidth(b[0]));
    if IsLiteral(b[0]) {
      FieldUndefined(t, b, PrefixWidth(b[0]));
    }
  }

  /** The undefined shift lies behind an accepted part of the block. */
  ghost predicate OverlongAt(t: Table, b: seq<byte>, p: nat)
    requires p < |b|
  {
    var r := DecodeBlock(t, b[..p]);
    r.outcome == Accepted && StepOverlong(r.table, b[p..])
  }

  lemma ShiftOverlong(t: Table, b: seq<byte>, p: nat)
    requires |b| > 0 && DecodeOne(t, b).Advance?
    requires DecodeOne(t, b).used <= |b| && p < |b| - DecodeOne(t, b).used
    requires OverlongAt(DecodeOne(t, b).table, b[DecodeOne(t, b).used..], p)
    ensures OverlongAt(t, b, DecodeOne(t, b).used + p)
  {
    hide DecodeOne, StepOverlong;
    var s := DecodeOne(t, b);
    var q := s.used + p;
    StepMakesProgress(t, b);
    assert b[..q][..s.used] == b[..s.used];
    StepLocal(t, b, b[..q]);
    assert b[..q][s.used..] == b[s.used..][..p];
    assert b[q..] == b[s.used..][p..];
  }

  lemma {:induction false} UndefinedIsOverlong(t: Table, b: seq<byte>) returns (p: nat)
    requires DecodeBlock(t, b).outcome == Outcome.Undefined
    ensures p < |b| && OverlongAt(t, b, p)
    decreases |b|
  {
    hide DecodeOne, StepOverlong, OverlongAt;
    StepUndefined(t, b);
    match DecodeOne(t, b)
    case Stop(_) =>
      p := 0;
      assert OverlongAt(t, b, 0) by {
        OverlongFirst(t, b);
      }
    case Advance(used, _, t') =>
      StepMakesProgress(t, b);
      var p' := UndefinedIsOverlong(t', b[used..]);
      p := used + p';
      ShiftOverlong(t, b, p');
  }

  lemma OverlongFirst(t: Table, b: seq<byte>)
    requires |b| > 0 && StepOverlong(t, b)
    ensures OverlongAt(t, b, 0)
  {
    hide StepOverlong, DecodeOne;
    assert b[..0] == [] && b[0..] == b;
  }

  lemma OverlongIsUndefined(t: Table, b: seq<byte>, p: nat)
    requires p < |b| && OverlongAt(t, b, p)
    ensures DecodeBlock(t, b).outcome == Outcome.Undefined
  {
    hide DecodeOne, StepOverlong;
    assert b == b[..p] + b[p..];
    DecodeConcat(t, b[..p], b[p..]);
    StepUndefined(DecodeBlock(t, b[..p]).table, b[p..]);
  }

  /** A block runs into the undefined shift exactly when, behind a part that decodes without
      fault, a representation has an overlong integer. */
  lemma BlockUndefined(t: Table, b: seq<byte>)
    ensures DecodeBlock(t, b).outcome == Outcome.Undefined <==>
            exists p: nat :: p < |b| && OverlongAt(t, b, p)
  {
    hide DecodeBlock, OverlongAt;
    if DecodeBlock(t, b).outcome == Outcome.Undefined {
      var p := UndefinedIsOverlong(t, b);
    }
    forall p: nat | p < |b| && OverlongAt(t, b, p)
      ensures DecodeBlock(t, b).outcome == Outcome.Undefined
    {
      OverlongIsUndefined(t, b, p);
    }
  }

  // ---------------------------------------------------------------- a guard on the raw bytes

  predicate HighRun(b: seq<byte>, i: nat) {
    i + 5 < |b| && forall j :: i <= j < i + 5 ==> b[j] >= 0x80
  }

  /** No five bytes in a row, behind the first, have their top bit set and are followed by
      another byte. */
  predicate NoHighRun(b: seq<byte>) {
    forall i :: 1 <= i < |b| ==> !HighRun(b, i)
  }

  lemma OverlongHasRun(b: seq<byte>, q: nat, n: nat)
    requires q <= |b| && n <= 8 && Overlong(b[q..], n)
    ensures q + 1 < |b| && HighRun(b, q + 1)
  {
    forall j | q + 1 <= j < q + 6
      ensures b[j] >= 0x80
    {
      assert b[q..][j - q] == b[j];
    }
  }

  /** Such bytes are decoded without undefined behaviour, whatever the table. */
  lemma GuardedBlock(t: Table, b: seq<byte>)
    requires NoHighRun(b)
    ensures DecodeBlock(t, b).outcome != Outcome.Undefined
  {
    hide DecodeBlock, DecodeInteger, DecodeName, Overlong, HighRun;
    if DecodeBlock(t, b).outcome == Outcome.Undefined {
      var p := UndefinedIsOverlong(t, b);
      var t', c := DecodeBlock(t, b[..p]).table, b[p..];
      var q := OverlongSuffix(t', c);
      var n :| n <= 8 && Overlong(c[q..], n);
      assert c[q..] == b[p + q..];
      OverlongHasRun(b, p + q, n);
    }
  }

  lemma OverlongSuffix(t: Table, b: seq<byte>) returns (q: nat)
    requires |b| > 0 && StepOverlong(t, b)
    ensures q <= |b| && exists n: nat :: n <= 8 && Overlong(b[q..], n)
  {
    hide DecodeInteger, DecodeName, Overlong;
    var width := PrefixWidth(b[0]);
    if Overlong(b, width) {
      q := 0;
      assert b[0..] == b;
      assert width <= 8 && Overlong(b[q..], width);
    } else {
      var i := DecodeInteger(b, width);
      if i.value == 0 && Overlong(b[i.used..], 7) {
        q := i.used;
      } else {
        q := i.used + DecodeName(t, i.value, b[i.used..]).used;
      }
      assert 7 <= 8 && Overlong(b[q..], 7);
    }
  }

  /** Seven bytes that no table saves from the undefined shift. */
  lemma OverlongBlock(t: Table)
    ensures DecodeBlock(t, [0xff, 0x80, 0x80, 0x80, 0x80, 0x80, 0x00]).outcome == Outcome.Undefined
  {
    hide DecodeInteger, Overlong;
    var b: seq<byte> := [0xff, 0x80, 0x80, 0x80, 0x80, 0x80, 0x00];
    OverlongExists();
    IntegerUndefined(b, 7);
    OverlongFirst(t, b);
    OverlongIsUndefined(t, b, 0);
  }
}
