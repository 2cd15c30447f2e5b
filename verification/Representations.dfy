/** Header blocks as any encoder may write them (RFC 7541, section 6), and what they mean: indices
    into both tables, literals with and without indexing, strings plain or Huffman-coded, and
    updates of the table size. The decoder is proved against this, and the server's own encoder
    writes a part of it. */
module Representations {
  import opened Bytes
  import opened Huffman
  import opened Integers
  import opened HeaderTable
  import opened HpackEncoder
  import opened HpackDecoder
  import opened HpackBlocks

  datatype Spelling = Spelling(text: seq<byte>, huffman: bool)

  datatype Name = Index(index: nat) | Spelled(spelling: Spelling)

  datatype Representation =
    | IndexedField(index: nat)
    | LiteralField(form: Literal, name: Name, value: Spelling)
    | SizeUpdate(size: nat)

  // ---------------------------------------------------------------- on the wire

  function Body(s: Spelling): seq<byte> {
    if s.huffman then HuffmanEncode(s.text) else s.text
  }

  /** The widths of the prefixes that integers have here. */
  lemma Prefixes()
    ensures Mask(4) == 0x0f && Mask(5) == 0x1f && Mask(6) == 0x3f && Mask(7) == 0x7f
    ensures PrefixOf(0x80, 7) == 0 && PrefixOf(0x00, 7) == 0 && PrefixOf(0x20, 5) == 0
    ensures PrefixOf(0x40, 6) == 0 && PrefixOf(0x00, 4) == 0 && PrefixOf(0x10, 4) == 0
  {
    Pow2Literals();
  }

  function SpellingBytes(s: Spelling): seq<byte> {
    Prefixes();
    EncodeInteger(if s.huffman then 0x80 else 0x00, 7, |Body(s)|) + Body(s)
  }

  /** 01 and six bits, 0000 and four bits, 0001 and four bits. */
  function LiteralBytes(form: Literal, index: nat): seq<byte> {
    Prefixes();
    match form
    case Incremental => EncodeInteger(0x40, 6, index)
    case WithoutIndexing => EncodeInteger(0x00, 4, index)
    case NeverIndexed => EncodeInteger(0x10, 4, index)
  }

  function NameBytes(form: Literal, name: Name): seq<byte> {
    match name
    case Index(index) => LiteralBytes(form, index)
    case Spelled(s) => LiteralBytes(form, 0) + SpellingBytes(s)
  }

  /** 1 and seven bits of index, a literal, 001 and five bits of size. */
  function RepresentationBytes(r: Representation): seq<byte> {
    Prefixes();
    match r
    case IndexedField(index) => EncodeInteger(0x80, 7, index)
    case LiteralField(form, name, value) => NameBytes(form, name) + SpellingBytes(value)
    case SizeUpdate(size) => EncodeInteger(0x20, 5, size)
  }

  function BlockBytes(rs: seq<Representation>): seq<byte> {
    if |rs| == 0 then [] else RepresentationBytes(rs[0]) + BlockBytes(rs[1..])
  }

  predicate FitsString(s: Spelling) {
    |Body(s)| < TWO_32
  }

  /** All integers have 32 bits, and a name index is not zero. */
  predicate Fits(r: Representation) {
    match r
    case IndexedField(index) => index < TWO_32
    case LiteralField(_, name, value) =>
      && FitsString(value)
      && (name.Index? ==> 0 < name.index < TWO_32)
      && (name.Spelled? ==> FitsString(name.spelling))
    case SizeUpdate(size) => size < TWO_32
  }

  // ---------------------------------------------------------------- what it means

  /** The address space of section 2.3.3: the static table from 1 to 61, then the dynamic one, the
      newest entry first. */
  function Addressed(t: Table, index: nat): Option<Header> {
    if 1 <= index <= 61 then Some(StaticTable()[index])
    else if index >= 62 && index - 62 < |t.entries| then Some(t.entries[index - 62])
    else None
  }

  datatype Effect = Effect(emitted: seq<Header>, table: Table) | Fault(outcome: Outcome)

  function NameOf(t: Table, name: Name): Option<seq<byte>> {
    match name
    case Spelled(s) => Some(s.text)
    case Index(index) => (match Addressed(t, index) case None => None case Some(h) => Some(h.name))
  }

  /** Indices that address nothing are errors; the code throws for those of names. */
  function Meaning(t: Table, r: Representation): (e: Effect)
    ensures e.Fault? ==> e.outcome != Accepted
  {
    match r
    case IndexedField(index) =>
      (match Addressed(t, index) case None => Fault(Rejected) case Some(h) => Effect([h], t))
    case LiteralField(form, name, value) =>
      (match NameOf(t, name)
       case None => Fault(Threw)
       case Some(n) =>
         var h := Header(n, value.text);
         Effect([h], if form.Incremental? then Insert(t, h) else t))
    case SizeUpdate(size) => Effect([], Resize(t, size))
  }

  /** The meaning of a block, up to its first error. */
  function Meanings(t: Table, rs: seq<Representation>): HpackDecoder.Result
    decreases |rs|
  {
    if |rs| == 0 then HpackDecoder.Result(Accepted, [], t)
    else
      match Meaning(t, rs[0])
      case Fault(outcome) => HpackDecoder.Result(outcome, [], t)
      case Effect(emitted, t') =>
        var rest := Meanings(t', rs[1..]);
        rest.(headers := emitted + rest.headers)
  }

  // ---------------------------------------------------------------- the decoder

  lemma AddressedIsLookup(t: Table, index: nat)
    ensures Lookup(t, index) == Addressed(t, index)
  {
    hide StaticTable;
  }

  lemma SpellingDecodes(s: Spelling, rest: seq<byte>)
    requires FitsString(s)
    ensures DecodeString(SpellingBytes(s) + rest) == StringResult.Read(s.text, |SpellingBytes(s)|)
  {
    hide DecodeInteger, EncodeInteger, HuffmanDecode, HuffmanEncode, PrefixOf, Mask;
    Prefixes();
    var flags: byte := if s.huffman then 0x80 else 0x00;
    var length, body := EncodeInteger(flags, 7, |Body(s)|), Body(s);
    var b := SpellingBytes(s) + rest;
    assert b == length + (body + rest);
    IntegerRoundTrip(flags, 7, |body|, body + rest);
    FirstByte(flags, 7, |body|);
    assert b[0] == length[0];
    assert b[|length|..|length| + |body|] == body;
    HuffmanBijection(body, s.text);
  }

  function WidthOf(form: Literal): (n: nat)
    ensures 4 <= n <= 7
  {
    if form.Incremental? then 6 else 4
  }

  lemma LiteralIndex(form: Literal, index: nat, rest: seq<byte>)
    requires index < TWO_32
    ensures var b := LiteralBytes(form, index);
            && |b| > 0
            && DecodeInteger(b + rest, WidthOf(form)) == Decoded(index, |b|)
            && if form.Incremental? then 0x40 <= b[0] < 0x80 else b[0] < 0x20
  {
    hide DecodeInteger, EncodeInteger, PrefixOf, Mask;
    Prefixes();
    match form
    case Incremental =>
      IntegerRoundTrip(0x40, 6, index, rest);
      FirstByte(0x40, 6, index);
    case WithoutIndexing =>
      IntegerRoundTrip(0x00, 4, index, rest);
      FirstByte(0x00, 4, index);
    case NeverIndexed =>
      IntegerRoundTrip(0x10, 4, index, rest);
      FirstByte(0x10, 4, index);
  }

  lemma NameDecodes(t: Table, form: Literal, name: Name, value: Spelling, rest: seq<byte>)
    requires Fits(LiteralField(form, name, value))
    ensures var b := NameBytes(form, name) + SpellingBytes(value) + rest;
            DecodeField(t, b, WidthOf(form)) ==
            match NameOf(t, name)
            case None => NoField(Threw)
            case Some(n) => Field(Header(n, value.text), |NameBytes(form, name) + SpellingBytes(value)|)
  {
    hide DecodeInteger, DecodeString, SpellingBytes, LiteralBytes, Lookup, Addressed, FitsString;
    var index := if name.Index? then name.index else 0;
    var prefix := LiteralBytes(form, index);
    var spelled := if name.Index? then [] else SpellingBytes(name.spelling);
    var last := SpellingBytes(value) + rest;
    var b := NameBytes(form, name) + SpellingBytes(value) + rest;
    assert b == prefix + (spelled + last);
    LiteralIndex(form, index, spelled + last);
    assert b[|prefix|..] == spelled + last;
    AddressedIsLookup(t, index);
    if name.Spelled? {
      SpellingDecodes(name.spelling, last);
    }
    assert b[|prefix| + |spelled|..] == last;
    SpellingDecodes(value, rest);
  }

  /** One representation, before any bytes and against any table. */
  lemma RepresentationDecodes(t: Table, r: Representation, rest: seq<byte>)
    requires Fits(r)
    ensures |RepresentationBytes(r)| > 0
    ensures DecodeOne(t, RepresentationBytes(r) + rest) ==
            match Meaning(t, r)
            case Fault(outcome) => Stop(outcome)
            case Effect(emitted, t') => Advance(|RepresentationBytes(r)|, emitted, t')
  {
    hide DecodeInteger, EncodeInteger, DecodeField, Lookup, Addressed, NameOf, PrefixOf, Mask, Insert, Resize;
    hide NameBytes, SpellingBytes, FitsString;
    Prefixes();
    var bytes := RepresentationBytes(r);
    var b := bytes + rest;
    match r
    case IndexedField(index) =>
      FirstByte(0x80, 7, index);
      assert b[0] == bytes[0];
      StepDispatch(t, b);
      IntegerRoundTrip(0x80, 7, index, rest);
      AddressedIsLookup(t, index);
    case SizeUpdate(size) =>
      FirstByte(0x20, 5, size);
      assert b[0] == bytes[0];
      StepDispatch(t, b);
      IntegerRoundTrip(0x20, 5, size, rest);
    case LiteralField(form, name, value) =>
      LiteralFirst(form, name);
      assert b[0] == NameBytes(form, name)[0];
      StepDispatch(t, b);
      NameDecodes(t, form, name, value, rest);
  }

  lemma LiteralFirst(form: Literal, name: Name)
    requires name.Index? ==> name.index < TWO_32
    ensures var b := NameBytes(form, name);
            |b| > 0 && if form.Incremental? then 0x40 <= b[0] < 0x80 else b[0] < 0x20
  {
    hide LiteralBytes, SpellingBytes, DecodeInteger;
    LiteralIndex(form, if name.Index? then name.index else 0, []);
  }

  /** Whatever conforming block a peer writes, and whatever table it meets, the decoder delivers its
      headers, ends as it should and leaves the table that the block describes. */
  lemma {:induction false} BlockDecodes(t: Table, rs: seq<Representation>)
    requires forall r <- rs :: Fits(r)
    ensures DecodeBlock(t, BlockBytes(rs)) == Meanings(t, rs)
    decreases |rs|
  {
    hide DecodeOne, RepresentationBytes, Meaning, Fits;
    if |rs| > 0 {
      var bytes, rest := RepresentationBytes(rs[0]), BlockBytes(rs[1..]);
      assert rs[0] in rs;
      RepresentationDecodes(t, rs[0], rest);
      if Meaning(t, rs[0]).Effect? {
        assert (bytes + rest)[|bytes|..] == rest;
        BlockDecodes(Meaning(t, rs[0]).table, rs[1..]);
      }
    }
  }

  // ---------------------------------------------------------------- the server's own encoder

  /** The form that the encoder gives a header: names not to be put into tables are marked so, and
      headers of more than 256 bytes, as section 4.1 counts them, are not put into tables either. */
  function FormOf(sensitive: set<seq<byte>>, h: Header): Literal {
    if h.name in sensitive then NeverIndexed
    else if 32 + |h.name| + |h.value| > 256 then WithoutIndexing
    else Incremental
  }

  /** `r` is `h`, by the first static entry that equals it, else with the name of the first static
      entry that has this name, else spelled out; strings are Huffman-coded. */
  ghost predicate IsEncodingOf(sensitive: set<seq<byte>>, h: Header, r: Representation) {
    if exists i :: 1 <= i <= 61 && StaticTable()[i] == h then
      && r.IndexedField? && 1 <= r.index <= 61 && StaticTable()[r.index] == h
      && forall i :: 1 <= i < r.index ==> StaticTable()[i] != h
    else
      && r.LiteralField? && r.form == FormOf(sensitive, h) && r.value == Spelling(h.value, true)
      && if exists i :: 1 <= i <= 61 && StaticTable()[i].name == h.name then
           && r.name.Index? && 1 <= r.name.index <= 61 && StaticTable()[r.name.index].name == h.name
           && forall i :: 1 <= i < r.name.index ==> StaticTable()[i].name != h.name
         else r.name == Spelled(Spelling(h.name, true))
  }

  lemma FirstStatic(h: Header)
    ensures var i := FirstEqual(Indexed(EMPTY_TABLE), h);
            && i <= 61
            && (i > 0 ==> StaticTable()[i] == h && forall j :: 1 <= j < i ==> StaticTable()[j] != h)
            && (i == 0 ==> forall j :: 1 <= j <= 61 ==> StaticTable()[j] != h)
  {
    hide StaticTable;
    var all := Indexed(EMPTY_TABLE);
    assert forall j :: 1 <= j <= 61 ==> StaticTable()[j] == all[j - 1];
  }

  lemma FirstStaticName(name: seq<byte>)
    ensures var i := FirstNamed(Indexed(EMPTY_TABLE), name);
            && i <= 61
            && (i > 0 ==> StaticTable()[i].name == name && forall j :: 1 <= j < i ==> StaticTable()[j].name != name)
            && (i == 0 ==> forall j :: 1 <= j <= 61 ==> StaticTable()[j].name != name)
  {
    hide StaticTable;
    var all := Indexed(EMPTY_TABLE);
    assert forall j :: 1 <= j <= 61 ==> StaticTable()[j] == all[j - 1];
  }

  lemma StaticIndex(index: nat)
    requires 1 <= index <= 61
    ensures Lookup(EMPTY_TABLE, index) == Some(StaticTable()[index])
    ensures forall t :: Addressed(t, index) == Some(StaticTable()[index])
  {
    hide StaticTable;
  }

  lemma SameForm(sensitive: set<seq<byte>>, h: Header)
    ensures FormOf(sensitive, h) == LiteralFor(sensitive, h)
  {
  }

  lemma LiteralPrefix(form: Literal, index: nat)
    ensures KnownName(form, index) == LiteralBytes(form, index)
    ensures NewName(form) == LiteralBytes(form, 0)
  {
    hide EncodeInteger;
  }

  lemma SpellingIsString(text: seq<byte>)
    requires |text| < 127
    ensures SpellingBytes(Spelling(text, true)) == EncodeString(text)
    ensures FitsString(Spelling(text, true))
  {
    hide EncodeInteger, HuffmanEncode;
    StringLength(text);
  }

  /** The server's encoder writes this representation of a header. */
  lemma HeaderIsRepresented(sensitive: set<seq<byte>>, h: Header) returns (r: Representation)
    requires Short(h)
    ensures Fits(r) && IsEncodingOf(sensitive, h, r)
    ensures RepresentationBytes(r) == EncodeHeader(sensitive, h)
  {
    hide EncodeInteger, StaticTable, FirstEqual, FirstNamed, EncodeString, SpellingBytes, KnownName, LiteralBytes;
    hide NewName, Lookup, LiteralFor, FormOf, Mask, PrefixOf, FitsString;
    var form := FormOf(sensitive, h);
    SameForm(sensitive, h);
    FirstStatic(h);
    FirstStaticName(h.name);
    SpellingIsString(h.name);
    SpellingIsString(h.value);
    var value := Spelling(h.value, true);
    var i, j := FirstEqual(Indexed(EMPTY_TABLE), h), FirstNamed(Indexed(EMPTY_TABLE), h.name);
    LookupZero(EMPTY_TABLE);
    if i > 0 {
      StaticIndex(i);
      r := IndexedField(i);
    } else if j > 0 {
      StaticIndex(j);
      LiteralPrefix(form, j);
      r := LiteralField(form, Index(j), value);
    } else {
      LiteralPrefix(form, 0);
      r := LiteralField(form, Spelled(Spelling(h.name, true)), value);
    }
  }

  /** By section 6 of RFC 7541 this is how the header is meant to be treated, whatever the table. */
  lemma EncodingMeans(sensitive: set<seq<byte>>, t: Table, h: Header, r: Representation)
    requires IsEncodingOf(sensitive, h, r)
    ensures Meaning(t, r) == Effect([h], if r.LiteralField? && r.form.Incremental? then Insert(t, h) else t)
  {
    hide StaticTable, Insert;
  }

  /** The first byte of an encoded header tells its form. */
  lemma FirstByteTells(sensitive: set<seq<byte>>, h: Header)
    requires Short(h)
    ensures var b := EncodeHeader(sensitive, h);
            && |b| > 0
            && (b[0] >= 0x80 <==> exists i :: 1 <= i <= 61 && StaticTable()[i] == h)
            && (b[0] < 0x80 ==>
                  && (0x10 <= b[0] < 0x20 <==> h.name in sensitive)
                  && (0x40 <= b[0] <==> h.name !in sensitive && 32 + |h.name| + |h.value| <= 256)
                  && (b[0] < 0x10 <==> h.name !in sensitive && 32 + |h.name| + |h.value| > 256))
  {
    hide StaticTable, EncodeInteger, EncodeHeader, SpellingBytes, FitsString, Mask, PrefixOf;
    var r := HeaderIsRepresented(sensitive, h);
    Prefixes();
    match r
    case IndexedField(index) => FirstByte(0x80, 7, index);
    case LiteralField(form, name, value) =>
      var index := if name.Index? then name.index else 0;
      FirstByte(if form.Incremental? then 0x40 else if form.NeverIndexed? then 0x10 else 0x00, WidthOf(form), index);
      assert RepresentationBytes(r)[0] == LiteralBytes(form, index)[0];
    case SizeUpdate(_) =>
  }

  ghost predicate AllEncodingsOf(sensitive: set<seq<byte>>, hs: seq<Header>, rs: seq<Representation>) {
    |rs| == |hs| && forall i :: 0 <= i < |hs| ==> Fits(rs[i]) && IsEncodingOf(sensitive, hs[i], rs[i])
  }

  lemma {:induction false} BlockBytesSnoc(rs: seq<Representation>, r: Representation)
    ensures BlockBytes(rs + [r]) == BlockBytes(rs) + RepresentationBytes(r)
  {
    hide RepresentationBytes;
    if |rs| == 0 {
      assert [r][1..] == [] && rs + [r] == [r];
    } else {
      BlockBytesSnoc(rs[1..], r);
      assert (rs + [r])[1..] == rs[1..] + [r];
    }
  }

  /** The blocks that the server writes, in terms of section 6. */
  lemma {:induction false} BlockIsRepresented(sensitive: set<seq<byte>>, hs: seq<Header>)
    returns (rs: seq<Representation>)
    requires AllShort(hs)
    ensures AllEncodingsOf(sensitive, hs, rs)
    ensures BlockBytes(rs) == EncodeBlock(sensitive, hs)
  {
    hide RepresentationBytes, EncodeHeader, IsEncodingOf, Fits;
    rs := [];
    if |hs| > 0 {
      var init := BlockIsRepresented(sensitive, hs[..|hs| - 1]);
      assert hs[|hs| - 1] in hs;
      var r := HeaderIsRepresented(sensitive, hs[|hs| - 1]);
      BlockBytesSnoc(init, r);
      rs := init + [r];
    }
  }

  lemma {:induction false} EncodingsMean(sensitive: set<seq<byte>>, t: Table, hs: seq<Header>, rs: seq<Representation>)
    requires AllEncodingsOf(sensitive, hs, rs)
    ensures Meanings(t, rs).outcome == Accepted && Meanings(t, rs).headers == hs
    decreases |rs|
  {
    hide IsEncodingOf, Meaning, Fits;
    if |rs| > 0 {
      EncodingMeans(sensitive, t, hs[0], rs[0]);
      EncodingsMean(sensitive, Meaning(t, rs[0]).table, hs[1..], rs[1..]);
      assert hs == [hs[0]] + hs[1..];
    }
  }

  /** By RFC 7541, the bytes are this header list to any peer, whatever its table holds. */
  ghost predicate Says(bytes: seq<byte>, hs: seq<Header>) {
    exists rs: seq<Representation> :: BlockBytes(rs) == bytes && AlwaysMeans(rs, hs)
  }

  ghost predicate AlwaysMeans(rs: seq<Representation>, hs: seq<Header>) {
    && (forall r <- rs :: Fits(r))
    && forall t :: Meanings(t, rs).outcome == Accepted && Meanings(t, rs).headers == hs
  }

  lemma BlockSays(sensitive: set<seq<byte>>, hs: seq<Header>)
    requires AllShort(hs)
    ensures Says(EncodeBlock(sensitive, hs), hs)
  {
    hide Meanings, IsEncodingOf, Fits, EncodeBlock, BlockBytes, AllShort;
    var rs := BlockIsRepresented(sensitive, hs);
    forall t
      ensures Meanings(t, rs).outcome == Accepted && Meanings(t, rs).headers == hs
    {
      EncodingsMean(sensitive, t, hs, rs);
    }
    assert AlwaysMeans(rs, hs);
  }

  // ---------------------------------------------------------------- two requests of the RFC

  lemma Indices()
    ensures RepresentationBytes(IndexedField(2)) == [0x82] && RepresentationBytes(IndexedField(4)) == [0x84]
    ensures RepresentationBytes(IndexedField(6)) == [0x86] && RepresentationBytes(IndexedField(62)) == [0xbe]
    ensures LiteralBytes(Incremental, 1) == [0x41] && LiteralBytes(Incremental, 24) == [0x58]
    ensures EncodeInteger(0x80, 7, 12) == [0x8c] && EncodeInteger(0x00, 7, 8) == [0x08]
  {
    Prefixes();
  }

  const GET_ROOT: seq<Representation> := [IndexedField(2), IndexedField(6), IndexedField(4)]

  const AUTHORITY := Text(":authority", "www.example.com")

  const NO_CACHE := Text("cache-control", "no-cache")

  function FirstRequest(): seq<Representation> {
    GET_ROOT + [LiteralField(Incremental, Index(1), Spelling(Ascii("www.example.com"), true))]
  }

  function SecondRequest(): seq<Representation> {
    GET_ROOT + [IndexedField(62), LiteralField(Incremental, Index(24), Spelling(Ascii("no-cache"), false))]
  }

  lemma {:induction false} BlockBytesConcat(a: seq<Representation>, b: seq<Representation>)
    ensures BlockBytes(a + b) == BlockBytes(a) + BlockBytes(b)
  {
    hide RepresentationBytes;
    if |a| == 0 {
      assert a + b == b;
    } else {
      assert (a + b)[1..] == a[1..] + b;
      BlockBytesConcat(a[1..], b);
    }
  }

  lemma OneBlock(r: Representation)
    ensures BlockBytes([r]) == RepresentationBytes(r)
  {
    hide RepresentationBytes;
    assert [r][1..] == [];
  }

  lemma GetRootBytes()
    ensures BlockBytes(GET_ROOT) == [0x82, 0x86, 0x84]
  {
    hide RepresentationBytes;
    Indices();
    assert GET_ROOT == [IndexedField(2)] + ([IndexedField(6)] + [IndexedField(4)]);
    BlockBytesConcat([IndexedField(2)], [IndexedField(6)] + [IndexedField(4)]);
    BlockBytesConcat([IndexedField(6)], [IndexedField(4)]);
    OneBlock(IndexedField(2));
    OneBlock(IndexedField(6));
    OneBlock(IndexedField(4));
  }

  /** The bytes of sections C.4.1 and C.3.2. */
  lemma RequestBytes()
    ensures BlockBytes(FirstRequest()) == [0x82, 0x86, 0x84, 0x41, 0x8c] + WWW_EXAMPLE_COM
    ensures BlockBytes(SecondRequest())
         == [0x82, 0x86, 0x84, 0xbe, 0x58, 0x08] + [0x6e, 0x6f, 0x2d, 0x63, 0x61, 0x63, 0x68, 0x65]
  {
    hide EncodeInteger, BlockBytes, HuffmanEncode, LiteralBytes;
    Indices();
    GetRootBytes();
    ExampleOfTheRfc();
    var host, cache := Spelling(Ascii("www.example.com"), true), Spelling(Ascii("no-cache"), false);
    var h, n := LiteralField(Incremental, Index(1), host), LiteralField(Incremental, Index(24), cache);
    OneBlock(h);
    OneBlock(n);
    OneBlock(IndexedField(62));
    BlockBytesConcat(GET_ROOT, [h]);
    BlockBytesConcat(GET_ROOT, [IndexedField(62), n]);
    BlockBytesConcat([IndexedField(62)], [n]);
    assert [IndexedField(62)] + [n] == [IndexedField(62), n];
    assert Body(cache) == [0x6e, 0x6f, 0x2d, 0x63, 0x61, 0x63, 0x68, 0x65];
  }

  lemma StaticEntries()
    ensures StaticTable()[1] == Text(":authority", "") && StaticTable()[2] == Text(":method", "GET")
    ensures StaticTable()[4] == Text(":path", "/") && StaticTable()[6] == Text(":scheme", "http")
    ensures StaticTable()[24] == Text("cache-control", "")
  {
  }

  /** What the table holds after one and after two insertions that fit. */
  lemma TwoInsertions()
    ensures TotalSize([AUTHORITY]) == 57 && TotalSize([NO_CACHE, AUTHORITY]) == 110
    ensures Insert(EMPTY_TABLE, AUTHORITY) == EMPTY_TABLE.(entries := [AUTHORITY])
    ensures Insert(EMPTY_TABLE.(entries := [AUTHORITY]), NO_CACHE) == EMPTY_TABLE.(entries := [NO_CACHE, AUTHORITY])
  {
    assert TotalSize([]) == 0;
    assert [AUTHORITY][..0] == [] && [NO_CACHE, AUTHORITY][..1] == [NO_CACHE] && [NO_CACHE][..0] == [];
    assert TotalSize([NO_CACHE]) == 53;
    assert [AUTHORITY] + [] == [AUTHORITY] && [NO_CACHE] + [AUTHORITY] == [NO_CACHE, AUTHORITY];
  }

  lemma {:induction false} MeaningsConcat(t: Table, a: seq<Representation>, b: seq<Representation>)
    requires Meanings(t, a).outcome == Accepted
    ensures Meanings(t, a + b) == Then(Meanings(t, a), Meanings(Meanings(t, a).table, b))
    decreases |a|
  {
    hide Meaning;
    if |a| == 0 {
      assert a + b == b;
    } else {
      assert (a + b)[1..] == a[1..] + b;
      var t' := Meaning(t, a[0]).table;
      MeaningsConcat(t', a[1..], b);
      ConcatAssociative(Meaning(t, a[0]).emitted, Meanings(t', a[1..]).headers,
                        Meanings(Meanings(t', a[1..]).table, b).headers);
    }
  }

  lemma OneMeaning(t: Table, r: Representation)
    requires Meaning(t, r).Effect?
    ensures Meanings(t, [r]) == HpackDecoder.Result(Accepted, Meaning(t, r).emitted, Meaning(t, r).table)
  {
    hide Meaning;
    assert [r][1..] == [];
    assert Meaning(t, r).emitted + [] == Meaning(t, r).emitted;
  }

  const GET_HEADERS: seq<Header> := [Text(":method", "GET"), Text(":scheme", "http"), Text(":path", "/")]

  lemma GetRootMeans(t: Table)
    ensures Meanings(t, GET_ROOT) == HpackDecoder.Result(Accepted, GET_HEADERS, t)
  {
    hide StaticTable;
    StaticEntries();
    assert GET_ROOT == [IndexedField(2)] + ([IndexedField(6)] + [IndexedField(4)]);
    OneMeaning(t, IndexedField(2));
    OneMeaning(t, IndexedField(6));
    OneMeaning(t, IndexedField(4));
    MeaningsConcat(t, [IndexedField(6)], [IndexedField(4)]);
    MeaningsConcat(t, [IndexedField(2)], [IndexedField(6)] + [IndexedField(4)]);
  }

  /** Two requests on one connection, as sections C.3 and C.4 of RFC 7541 decode them: the second
      refers to a header of the first by index 62. */
  lemma RequestsOfTheRfc()
    ensures DecodeBlock(EMPTY_TABLE, [0x82, 0x86, 0x84, 0x41, 0x8c] + WWW_EXAMPLE_COM)
         == HpackDecoder.Result(Accepted, GET_HEADERS + [AUTHORITY], EMPTY_TABLE.(entries := [AUTHORITY]))
    ensures DecodeBlock(EMPTY_TABLE.(entries := [AUTHORITY]),
                        [0x82, 0x86, 0x84, 0xbe, 0x58, 0x08] + [0x6e, 0x6f, 0x2d, 0x63, 0x61, 0x63, 0x68, 0x65])
         == HpackDecoder.Result(Accepted, GET_HEADERS + [AUTHORITY, NO_CACHE],
                                EMPTY_TABLE.(entries := [NO_CACHE, AUTHORITY]))
  {
    hide StaticTable, DecodeBlock, BlockBytes, Meanings, Insert, HuffmanEncode, TotalSize, GET_ROOT, GET_HEADERS;
    StaticEntries();
    TwoInsertions();
    RequestBytes();
    var t := EMPTY_TABLE.(entries := [AUTHORITY]);
    var h := LiteralField(Incremental, Index(1), Spelling(Ascii("www.example.com"), true));
    var n := LiteralField(Incremental, Index(24), Spelling(Ascii("no-cache"), false));
    RequestsFit();
    BlockDecodes(EMPTY_TABLE, FirstRequest());
    BlockDecodes(t, SecondRequest());
    GetRootMeans(EMPTY_TABLE);
    GetRootMeans(t);
    OneMeaning(EMPTY_TABLE, h);
    OneMeaning(t, IndexedField(62));
    OneMeaning(t, n);
    MeaningsConcat(EMPTY_TABLE, GET_ROOT, [h]);
    MeaningsConcat(t, [IndexedField(62)], [n]);
    assert [IndexedField(62)] + [n] == [IndexedField(62), n];
    MeaningsConcat(t, GET_ROOT, [IndexedField(62), n]);
  }

  lemma RequestsFit()
    ensures forall r <- FirstRequest() :: Fits(r)
    ensures forall r <- SecondRequest() :: Fits(r)
  {
    hide HuffmanEncode;
    ExampleOfTheRfc();
  }
}
