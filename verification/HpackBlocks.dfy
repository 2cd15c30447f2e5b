/** What encoder and decoder promise each other about whole header blocks. */
module HpackBlocks {
  import opened Bytes
  import opened Huffman
  import opened Integers
  import opened HeaderTable
  import opened HpackEncoder
  import opened HpackDecoder

  // ---------------------------------------------------------------- self-delimitation

  /** `c` starts with the first `n` bytes of `b`. */
  predicate Shares(b: seq<byte>, c: seq<byte>, n: nat) {
    n <= |b| && n <= |c| && c[..n] == b[..n]
  }

  lemma SharesLess(b: seq<byte>, c: seq<byte>, n: nat, m: nat)
    requires Shares(b, c, n) && m <= n
    ensures Shares(b, c, m) && Shares(b[m..], c[m..], n - m)
    ensures forall i :: 0 <= i < n ==> b[i] == c[i]
  {
    assert c[..m] == c[..n][..m] == b[..n][..m] == b[..m];
    assert c[m..][..n - m] == c[..n][m..] == b[..n][m..] == b[m..][..n - m];
    forall i | 0 <= i < n
      ensures b[i] == c[i]
    {
      assert c[i] == c[..n][i] == b[..n][i];
    }
  }

  lemma StringLocal(b: seq<byte>, c: seq<byte>)
    requires DecodeString(b).Read? && Shares(b, c, DecodeString(b).used)
    ensures DecodeString(c) == DecodeString(b)
  {
    hide DecodeInteger, HuffmanDecode;
    var i, used := DecodeInteger(b, 7), DecodeString(b).used;
    SharesLess(b, c, used, i.used);
    IntegerLocal(b, c, 7);
    assert c[i.used..used] == c[..used][i.used..] == b[..used][i.used..] == b[i.used..used];
  }

  lemma FieldLocal(t: Table, b: seq<byte>, c: seq<byte>, width: nat)
    requires 4 <= width <= 7
    requires DecodeField(t, b, width).Field? && Shares(b, c, DecodeField(t, b, width).length)
    ensures DecodeField(t, c, width) == DecodeField(t, b, width)
  {
    hide DecodeInteger, DecodeString, Lookup;
    var i, length := DecodeInteger(b, width), DecodeField(t, b, width).length;
    SharesLess(b, c, length, i.used);
    IntegerLocal(b, c, width);
    var name := DecodeName(t, i.value, b[i.used..]);
    if i.value == 0 {
      SharesLess(b[i.used..], c[i.used..], length - i.used, name.used);
      StringLocal(b[i.used..], c[i.used..]);
    }
    var m := i.used + name.used;
    SharesLess(b, c, length, m);
    SharesLess(b[m..], c[m..], length - m, DecodeString(b[m..]).used);
    StringLocal(b[m..], c[m..]);
  }

  /** A representation is decoded without looking past it. */
  lemma StepLocal(t: Table, b: seq<byte>, c: seq<byte>)
    requires |b| > 0 && DecodeOne(t, b).Advance? && Shares(b, c, DecodeOne(t, b).used)
    ensures |c| > 0 && DecodeOne(t, c) == DecodeOne(t, b)
  {
    hide DecodeInteger, DecodeField, Insert, Resize, Lookup;
    StepMakesProgress(t, b);
    SharesLess(b, c, DecodeOne(t, b).used, 0);
    StepDispatch(t, b);
    StepDispatch(t, c);
    if 0x20 <= b[0] < 0x40 {
      IntegerLocal(b, c, 5);
    } else if b[0] >= 0x80 {
      IntegerLocal(b, c, 7);
    } else {
      FieldLocal(t, b, c, if b[0] >= 0x40 then 6 else 4);
    }
  }

  // ---------------------------------------------------------------- concatenation

  function Then(first: Result, second: Result): Result {
    second.(headers := first.headers + second.headers)
  }

  /** Decoding `a + b` is decoding `a` and then, if that succeeded, `b`. */
  lemma {:induction false} DecodeConcat(t: Table, a: seq<byte>, b: seq<byte>)
    requires DecodeBlock(t, a).outcome == Accepted
    ensures DecodeBlock(t, a + b) == Then(DecodeBlock(t, a), DecodeBlock(DecodeBlock(t, a).table, b))
    decreases |a|
  {
    hide DecodeOne;
    if |a| == 0 {
      assert a + b == b;
    } else {
      var s := DecodeOne(t, a);
      StepMakesProgress(t, a);
      assert (a + b)[..s.used] == a[..s.used];
      StepLocal(t, a, a + b);
      assert (a + b)[s.used..] == a[s.used..] + b;
      DecodeConcat(s.table, a[s.used..], b);
      var rest := DecodeBlock(s.table, a[s.used..]);
      ConcatAssociative(s.emitted, rest.headers, DecodeBlock(rest.table, b).headers);
    }
  }

  lemma DecodeSingle(t: Table, b: seq<byte>)
    requires |b| > 0 && DecodeOne(t, b).Advance? && DecodeOne(t, b).used == |b|
    ensures DecodeBlock(t, b) == Result(Accepted, DecodeOne(t, b).emitted, DecodeOne(t, b).table)
  {
    hide DecodeOne;
    var s := DecodeOne(t, b);
    assert b[|b|..] == [];
    assert s.emitted + [] == s.emitted;
  }

  // ---------------------------------------------------------------- safety

  /** Whatever the bytes and the outcome, the table stays within its bounds, and every header
      delivered has cost at least one byte. */
  lemma {:induction false} DecodeKeepsBounds(t: Table, b: seq<byte>)
    requires WithinBounds(t)
    ensures WithinBounds(DecodeBlock(t, b).table)
    ensures |DecodeBlock(t, b).headers| <= |b|
    decreases |b|
  {
    hide DecodeOne;
    if |b| > 0 {
      var s := DecodeOne(t, b);
      if s.Advance? {
        StepMakesProgress(t, b);
        DecodeKeepsBounds(s.table, b[s.used..]);
      }
    }
  }

  // ---------------------------------------------------------------- truncation

  lemma StringTruncated(b: seq<byte>, k: nat)
    requires DecodeString(b).Read? && k < DecodeString(b).used
    ensures DecodeString(b[..k]) == Unreadable(Rejected)
  {
    hide DecodeInteger, HuffmanDecode;
    var i := DecodeInteger(b, 7);
    if k < i.used {
      IntegerTruncated(b, k, 7);
    } else {
      IntegerLocal(b, b[..k], 7);
    }
  }

  lemma FieldTruncated(t: Table, b: seq<byte>, k: nat, width: nat)
    requires 4 <= width <= 7
    requires DecodeField(t, b, width).Field? && k < DecodeField(t, b, width).length
    ensures DecodeField(t, b[..k], width) == NoField(Rejected)
  {
    hide DecodeInteger, DecodeString, Lookup;
    var i, c := DecodeInteger(b, width), b[..k];
    if k < i.used {
      IntegerTruncated(b, k, width);
      return;
    }
    IntegerLocal(b, c, width);
    var bName, cName := b[i.used..], c[i.used..];
    assert cName == bName[..k - i.used];
    var name := DecodeName(t, i.value, bName);
    var m := i.used + name.used;
    if i.value == 0 {
      if k < m {
        StringTruncated(bName, k - i.used);
        return;
      }
      assert cName[..name.used] == bName[..name.used];
      StringLocal(bName, cName);
    }
    assert c[m..] == b[m..][..k - m];
    StringTruncated(b[m..], k - m);
  }

  /** A representation cut anywhere inside is rejected: nothing is delivered and nothing thrown. */
  lemma StepTruncated(t: Table, b: seq<byte>, k: nat)
    requires |b| > 0 && DecodeOne(t, b).Advance? && 0 < k < DecodeOne(t, b).used <= |b|
    ensures DecodeOne(t, b[..k]) == Stop(Rejected)
  {
    hide DecodeInteger, DecodeField, Insert, Resize, Lookup;
    StepDispatch(t, b);
    StepDispatch(t, b[..k]);
    if 0x20 <= b[0] < 0x40 {
      IntegerTruncated(b, k, 5);
    } else if b[0] >= 0x80 {
      IntegerTruncated(b, k, 7);
    } else {
      FieldTruncated(t, b, k, if b[0] >= 0x40 then 6 else 4);
    }
  }

  // ---------------------------------------------------------------- round trip

  lemma StringRoundTrip(text: seq<byte>, rest: seq<byte>)
    requires |text| < 127
    ensures DecodeString(EncodeString(text) + rest) == Read(text, |EncodeString(text)|)
  {
    hide DecodeInteger, EncodeInteger, HuffmanDecode, HuffmanEncode, PrefixOf, Pow2;
    Pow2Literals();
    FlagsAreHigh();
    StringLength(text);
    var coded := HuffmanEncode(text);
    var length := EncodeInteger(0x80, 7, |coded|);
    var b := EncodeString(text) + rest;
    assert b == length + (coded + rest);
    IntegerRoundTrip(0x80, 7, |coded|, coded + rest);
    FirstByte(0x80, 7, |coded|);
    assert b[0] == length[0];
    assert b[|length|..|length| + |coded|] == coded;
    HuffmanBijection(coded, text);
  }

  lemma FirstByte(flags: byte, n: nat, value: nat)
    requires 4 <= n <= 7 && flags + Mask(n) <= 0xff
    ensures |EncodeInteger(flags, n, value)| > 0
    ensures flags <= EncodeInteger(flags, n, value)[0] <= flags + Mask(n)
  {
  }

  /** Only headers sent with incremental indexing, and not already fully in the static table,
      reach the decoder's dynamic table. */
  predicate IsAdded(sensitive: set<seq<byte>>, h: Header) {
    LiteralFor(sensitive, h).Incremental? &&
    Lookup(EMPTY_TABLE, BestMatch(EMPTY_TABLE, h)) != Some(h)
  }

  function TableAfter(sensitive: set<seq<byte>>, t: Table, h: Header): Table {
    if IsAdded(sensitive, h) then Insert(t, h) else t
  }

  function TableAfterAll(sensitive: set<seq<byte>>, t: Table, hs: seq<Header>): Table {
    if |hs| == 0 then t
    else TableAfter(sensitive, TableAfterAll(sensitive, t, hs[..|hs| - 1]), hs[|hs| - 1])
  }

  /** Static indices mean the same to every table. */
  lemma StaticLookup(t: Table, index: nat)
    requires index <= 61
    ensures Lookup(t, index) == Lookup(EMPTY_TABLE, index)
  {
    hide StaticTable;
  }

  lemma LiteralRoundTrip(form: Literal, t: Table, h: Header, index: nat)
    requires Short(h) && index <= 61
    requires index > 0 ==> Lookup(t, index).Some? && Lookup(t, index).value.name == h.name
    requires form.Flags() + Mask(form.Width()) <= 0xff
    ensures var name := if index == 0 then EncodeString(h.name) else [];
            var b := EncodeInteger(form.Flags(), form.Width(), index) + name + EncodeString(h.value);
            DecodeField(t, b, form.Width()) == Field(h, |b|)
  {
    hide DecodeInteger, EncodeInteger, DecodeString, EncodeString, Lookup, PrefixOf, Mask;
    var prefix := EncodeInteger(form.Flags(), form.Width(), index);
    var name := if index == 0 then EncodeString(h.name) else [];
    var value := EncodeString(h.value);
    var b := prefix + name + value;
    FlagsAreHigh();
    assert b == prefix + (name + value);
    IntegerRoundTrip(form.Flags(), form.Width(), index, name + value);
    assert b[|prefix|..] == name + value;
    if index == 0 {
      StringRoundTrip(h.name, value);
    }
    assert b[|prefix| + |name|..] == value == value + [];
    StringRoundTrip(h.value, []);
  }

  /** One header, against any decoder table at all. */
  lemma HeaderRoundTrip(sensitive: set<seq<byte>>, t: Table, h: Header)
    requires Short(h)
    ensures |EncodeHeader(sensitive, h)| > 0
    ensures DecodeOne(t, EncodeHeader(sensitive, h))
         == Advance(|EncodeHeader(sensitive, h)|, [h], TableAfter(sensitive, t, h))
  {
    hide DecodeInteger, EncodeInteger, DecodeField, EncodeString, Lookup, BestMatch, Insert, PrefixOf, Mask, Pow2;
    Pow2Literals();
    FlagsAreHigh();
    var form, index := LiteralFor(sensitive, h), BestMatch(EMPTY_TABLE, h);
    FlagByte(form);
    MatchBelow62(h);
    LookupZero(EMPTY_TABLE);
    StaticLookup(t, index);
    var b := EncodeHeader(sensitive, h);
    if index > 0 && Lookup(EMPTY_TABLE, index) == Some(h) {
      FirstByte(0x80, 7, index);
      StepDispatch(t, b);
      IntegerRoundTrip(0x80, 7, index, []);
      assert b + [] == b;
    } else {
      LiteralRoundTrip(form, t, h, index);
      FirstByte(form.Flags(), form.Width(), index);
      var prefix := EncodeInteger(form.Flags(), form.Width(), index);
      assert index > 0 ==> prefix + [] == prefix;
      assert b[0] == prefix[0];
      MaskOfWidth(form);
      StepDispatch(t, b);
    }
  }

  lemma MaskOfWidth(form: Literal)
    ensures Mask(form.Width()) == if form.Incremental? then 0x3f else 0x0f
  {
    Pow2Literals();
  }

  /** Every list of headers is decoded to exactly itself, in order, whatever the table it meets;
      the table changes by the insertions the encoder asked for and nothing else. */
  lemma {:induction false} BlockRoundTrip(sensitive: set<seq<byte>>, t: Table, hs: seq<Header>)
    requires AllShort(hs)
    ensures DecodeBlock(t, EncodeBlock(sensitive, hs))
         == Result(Accepted, hs, TableAfterAll(sensitive, t, hs))
  {
    hide DecodeOne, EncodeHeader, TableAfter;
    if |hs| > 0 {
      var init, last := hs[..|hs| - 1], hs[|hs| - 1];
      BlockRoundTrip(sensitive, t, init);
      var t' := TableAfterAll(sensitive, t, init);
      HeaderRoundTrip(sensitive, t', last);
      DecodeSingle(t', EncodeHeader(sensitive, last));
      DecodeConcat(t, EncodeBlock(sensitive, init), EncodeHeader(sensitive, last));
      assert hs == init + [last];
    }
  }

  /** The two tables do not stay in step: the decoder's is still empty, like the encoder's,
      exactly when nothing was sent with incremental indexing. */
  lemma {:induction false} TablesInStep(sensitive: set<seq<byte>>, hs: seq<Header>)
    ensures TableAfterAll(sensitive, EMPTY_TABLE, hs).maxSize == DEFAULT_MAX_SIZE
    ensures TableAfterAll(sensitive, EMPTY_TABLE, hs).entries == []
       <==> forall h <- hs :: !IsAdded(sensitive, h)
  {
    hide IsAdded;
    if |hs| > 0 {
      var init, last := hs[..|hs| - 1], hs[|hs| - 1];
      TablesInStep(sensitive, init);
      assert hs == init + [last];
      assert last in hs;
      if IsAdded(sensitive, last) {
        AddedIsSmall(sensitive, last);
        InsertSmall(TableAfterAll(sensitive, EMPTY_TABLE, init), last);
      }
    }
  }

  lemma AddedIsSmall(sensitive: set<seq<byte>>, h: Header)
    requires IsAdded(sensitive, h)
    ensures h.Size() <= 256
  {
    hide Lookup, BestMatch;
  }

  lemma InsertSmall(t: Table, h: Header)
    requires h.Size() <= t.maxSize
    ensures |Insert(t, h).entries| > 0 && Insert(t, h).entries[0] == h
  {
    var kept := Fit([h] + t.entries, t.maxSize);
    assert ([h] + t.entries)[..1] == [h];
    assert TotalSize([h]) == TotalSize([]) + h.Size();
  }

  /** How many headers of an encoded list lie wholly before byte `cut`. */
  function WholeHeaders(sensitive: set<seq<byte>>, hs: seq<Header>, cut: nat): (k: nat)
    ensures k <= |hs|
  {
    if |hs| == 0 || cut >= |EncodeBlock(sensitive, hs)| then |hs|
    else WholeHeaders(sensitive, hs[..|hs| - 1], cut)
  }

  lemma {:induction false} WholeHeadersAre(sensitive: set<seq<byte>>, hs: seq<Header>, cut: nat)
    ensures var k := WholeHeaders(sensitive, hs, cut);
            && |EncodeBlock(sensitive, hs[..k])| <= cut
            && (k < |hs| ==> cut < |EncodeBlock(sensitive, hs[..k + 1])|)
  {
    hide EncodeHeader;
    var k := WholeHeaders(sensitive, hs, cut);
    if k == |hs| {
      assert hs[..k] == hs;
    } else {
      var init := hs[..|hs| - 1];
      WholeHeadersAre(sensitive, init, cut);
      assert init[..k] == hs[..k];
      assert if k == |init| then hs[..k + 1] == hs else init[..k + 1] == hs[..k + 1];
    }
  }

  /** A block cut at any byte delivers exactly the headers wholly before the cut, and is accepted
      exactly when the cut falls between two headers. */
  lemma {:induction false} TruncationDetected(sensitive: set<seq<byte>>, t: Table, hs: seq<Header>, cut: nat)
    requires AllShort(hs) && cut <= |EncodeBlock(sensitive, hs)|
    ensures var k := WholeHeaders(sensitive, hs, cut);
            var whole := hs[..k];
            DecodeBlock(t, EncodeBlock(sensitive, hs)[..cut])
              == Result(if |EncodeBlock(sensitive, whole)| == cut then Accepted else Rejected,
                        whole, TableAfterAll(sensitive, t, whole))
  {
    hide DecodeOne, EncodeHeader, TableAfter;
    var b := EncodeBlock(sensitive, hs);
    if cut == |b| {
      assert b[..cut] == b && hs[..|hs|] == hs;
      BlockRoundTrip(sensitive, t, hs);
      return;
    }
    var init, last := hs[..|hs| - 1], hs[|hs| - 1];
    var a, c := EncodeBlock(sensitive, init), EncodeHeader(sensitive, last);
    if cut < |a| {
      assert b[..cut] == a[..cut];
      TruncationDetected(sensitive, t, init, cut);
      var k := WholeHeaders(sensitive, init, cut);
      assert init[..k] == hs[..k];
    } else {
      BlockRoundTrip(sensitive, t, init);
      var t' := TableAfterAll(sensitive, t, init);
      HeaderRoundTrip(sensitive, t', last);
      var part := c[..cut - |a|];
      assert b[..cut] == a + part;
      DecodeConcat(t, a, part);
      if |part| > 0 {
        StepTruncated(t', c, |part|);
      }
      assert init + [] == init;
    }
  }
}
