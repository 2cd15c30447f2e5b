/** The HPACK header-block encoder (RFC 7541, section 6). */
module HpackEncoder {
  import opened Bytes
  import opened Huffman
  import opened HuffmanCoder
  import opened Integers
  import opened HeaderTable

  /** The encoder aborts the process on names or values of 127 bytes or more. */
  predicate Short(h: Header) {
    |h.name| < 127 && |h.value| < 127
  }

  predicate AllShort(hs: seq<Header>) {
    forall h <- hs :: Short(h)
  }

  /** The table an encoder consults: it never adds to it. */
  const EMPTY_TABLE := Table(DEFAULT_MAX_SIZE, [])

  /** How a header that is not fully in the table is written. */
  datatype Literal = Incremental | WithoutIndexing | NeverIndexed {
    function Flags(): byte {
      match this
      case Incremental => 0x40
      case WithoutIndexing => 0x00
      case NeverIndexed => 0x10
    }

    function Width(): (n: nat)
      ensures 4 <= n <= 7
    {
      if this.Incremental? then 6 else 4
    }
  }

  function LiteralFor(sensitive: set<seq<byte>>, h: Header): Literal {
    if h.name in sensitive then NeverIndexed
    else if h.Size() > 256 then WithoutIndexing
    else Incremental
  }

  function EncodeString(text: seq<byte>): seq<byte> {
    var coded := HuffmanEncode(text);
    Pow2Literals();
    EncodeInteger(0x80, 7, |coded|) + coded
  }

  /** What comes before a name that is spelled out, and what stands for one in the table. */
  function NewName(form: Literal): seq<byte> {
    KnownName(form, 0)
  }

  function KnownName(form: Literal, index: nat): seq<byte> {
    Pow2Literals();
    EncodeInteger(form.Flags(), form.Width(), index)
  }

  function EncodeHeader(sensitive: set<seq<byte>>, h: Header): seq<byte> {
    Pow2Literals();
    var form, index := LiteralFor(sensitive, h), BestMatch(EMPTY_TABLE, h);
    if index == 0 then
      NewName(form) + EncodeString(h.name) + EncodeString(h.value)
    else if Lookup(EMPTY_TABLE, index) == Some(h) then
      EncodeInteger(0x80, 7, index)
    else
      KnownName(form, index) + EncodeString(h.value)
  }

  function EncodeBlock(sensitive: set<seq<byte>>, hs: seq<Header>): seq<byte> {
    if |hs| == 0 then []
    else EncodeBlock(sensitive, hs[..|hs| - 1]) + EncodeHeader(sensitive, hs[|hs| - 1])
  }

  lemma StringLength(text: seq<byte>)
    requires |text| < 127
    ensures |HuffmanEncode(text)| <= 473
    ensures |EncodeString(text)| <= 476
  {
    EncodedLength(text);
    assert |HuffmanEncode(text)| <= 473;
    Pow2Literals();
    IntegerLength(0x80, 7, |HuffmanEncode(text)|);
  }

  lemma MatchBelow62(h: Header)
    ensures BestMatch(EMPTY_TABLE, h) <= 61
  {
    hide StaticTable;
  }

  /** No header costs more than 953 bytes. */
  lemma HeaderLength(sensitive: set<seq<byte>>, h: Header)
    requires Short(h)
    ensures 1 <= |EncodeHeader(sensitive, h)| <= 953
  {
    hide BestMatch, Lookup, HuffmanEncode;
    var form, index := LiteralFor(sensitive, h), BestMatch(EMPTY_TABLE, h);
    MatchBelow62(h);
    StringLength(h.name);
    StringLength(h.value);
    Pow2Literals();
    IntegerLength(0x80, 7, index);
    IntegerLength(form.Flags(), form.Width(), index);
    IntegerLength(form.Flags(), form.Width(), 0);
  }

  lemma {:induction false} BlockLength(sensitive: set<seq<byte>>, hs: seq<Header>)
    requires AllShort(hs)
    ensures |EncodeBlock(sensitive, hs)| <= 953 * |hs|
  {
    if |hs| > 0 {
      BlockLength(sensitive, hs[..|hs| - 1]);
      HeaderLength(sensitive, hs[|hs| - 1]);
    }
  }

  class Encoder {
    const table: DynamicTable
    var sensitive: set<seq<byte>>

    /** The encoder's own dynamic table stays empty. */
    ghost predicate Valid()
      reads this, table
    {
      table.Valid() && table.entries == []
    }

    constructor ()
      ensures Valid() && fresh(table)
      ensures sensitive == DefaultSensitive()
    {
      table := new DynamicTable();
      sensitive := DefaultSensitive();
    }

    method Reset()
      requires Valid()
      modifies this, table
      ensures Valid() && sensitive == DefaultSensitive()
    {
      table.Reset();
      sensitive := DefaultSensitive();
    }

    method MarkSensitive(name: seq<byte>)
      requires Valid()
      modifies this`sensitive
      ensures Valid() && sensitive == old(sensitive) + {name}
    {
      sensitive := sensitive + {name};
    }

    method Encode(h: Header, output: seq<byte>) returns (result: seq<byte>)
      requires Valid() && Short(h)
      ensures result == output + EncodeHeader(sensitive, h)
    {
      hide EncodeString, StaticTable, EncodeInteger, FirstEqual, FirstNamed, Pow2, BestMatch, Lookup, TotalSize;
      Pow2Literals();
      SameMatches(table.View(), h);
      var index := table.FindBestMatch(h);
      if index == 0 {
        result := EncodeNewName(h, output);
        return;
      }
      MatchBelow62(h);
      var best := table.At(index);
      if best == Some(h) {
        FlagsAreHigh();
        result := AppendInteger(0x80, 7, index, output);
        return;
      }
      result := EncodeKnownName(h, index, output);
    }

    /** The branch for a name that is not in the table. */
    method EncodeNewName(h: Header, output: seq<byte>) returns (result: seq<byte>)
      requires Short(h)
      ensures var form := LiteralFor(sensitive, h);
              result == output + (NewName(form) + EncodeString(h.name) + EncodeString(h.value))
    {
      hide EncodeString, NewName;
      NewNameByte(LiteralFor(sensitive, h));
      result := output;
      var isSensitive := h.name in sensitive;
      var isBig := h.Size() > 256;
      if isSensitive {
        result := result + [0x10];
      } else if isBig {
        result := result + [0x00];
      } else {
        result := result + [0x40];
      }
      result := AppendString(h.name, result);
      result := AppendString(h.value, result);
    }

    /** The branch for a name that is in the table, but not with this value. */
    method EncodeKnownName(h: Header, index: nat, output: seq<byte>) returns (result: seq<byte>)
      requires Short(h) && index <= 61
      ensures var form := LiteralFor(sensitive, h);
              result == output + (KnownName(form, index) + EncodeString(h.value))
    {
      hide EncodeString, EncodeInteger, Pow2;
      Pow2Literals();
      FlagsAreHigh();
      var isSensitive := h.name in sensitive;
      var isBig := h.Size() > 256;
      if isSensitive {
        result := AppendInteger(0x10, 4, index, output);
      } else if isBig {
        result := AppendInteger(0x00, 4, index, output);
      } else {
        result := AppendInteger(0x40, 6, index, output);
      }
      result := AppendString(h.value, result);
    }

    method EncodeAll(input: seq<Header>, output: seq<byte>) returns (result: seq<byte>)
      requires Valid() && AllShort(input)
      ensures result == output + EncodeBlock(sensitive, input)
    {
      hide EncodeHeader;
      result := output;
      var i := 0;
      while i < |input|
        invariant 0 <= i <= |input|
        invariant result == output + EncodeBlock(sensitive, input[..i])
      {
        assert input[..i + 1][..i] == input[..i];
        result := Encode(input[i], result);
        i := i + 1;
      }
      assert input[..i] == input;
    }
  }

  function DefaultSensitive(): set<seq<byte>> {
    {Ascii("cookie"), Ascii("proxy-authenticate"), Ascii("set-cookie"), Ascii("www-authenticate")}
  }

  /** A string is always sent Huffman-coded, length first. */
  method AppendString(text: seq<byte>, output: seq<byte>) returns (result: seq<byte>)
    requires |text| < 127
    ensures result == output + EncodeString(text)
  {
    hide HuffmanEncode, EncodeInteger, Pow2;
    Pow2Literals();
    FlagsAreHigh();
    StringLength(text);
    var coded := EncodeHuffman(text);
    result := AppendInteger(0x80, 7, |coded|, output);
    result := result + coded;
  }

  lemma FlagsAreHigh()
    ensures PrefixOf(0x80, 7) == 0 && PrefixOf(0x40, 6) == 0
    ensures PrefixOf(0x10, 4) == 0 && PrefixOf(0x00, 4) == 0
  {
    Pow2Literals();
  }

  lemma FlagByte(form: Literal)
    ensures form.Flags() + Mask(form.Width()) <= 0xff
    ensures EncodeInteger(form.Flags(), form.Width(), 0) == [form.Flags()]
  {
    Pow2Literals();
  }

  lemma NewNameByte(form: Literal)
    ensures NewName(form) == [form.Flags()]
  {
    FlagByte(form);
  }

  /** What a table without dynamic entries matches does not depend on its size limit. */
  lemma SameMatches(t: Table, h: Header)
    requires t.entries == []
    ensures BestMatch(t, h) == BestMatch(EMPTY_TABLE, h)
    ensures forall i :: Lookup(t, i) == Lookup(EMPTY_TABLE, i)
  {
    hide StaticTable;
    assert Indexed(t) == Indexed(EMPTY_TABLE);
  }
}
