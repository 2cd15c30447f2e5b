/** The Huffman string coder: a bit accumulator on each side of the static code.

    `HuffmanEncode` says what the encoder writes, in terms of codewords alone. The decoder is
    specified as nothing but its inverse. */
module Huffman {
  import opened Bytes
  import opened HuffmanTable

  // ---------------------------------------------------------------- codewords

  function Code(s: nat): (bits: seq<bool>)
    requires s <= 256
    ensures |bits| == Entry(s).numbits
  {
    BitsOf(Entry(s).bits, Entry(s).numbits)
  }

  lemma MulCancel(a: nat, b: nat, d: nat)
    requires d > 0 && a * d <= b * d
    ensures a <= b
  {
    assert a > b ==> a * d >= (b + 1) * d;
  }

  /** The tile of rank `k` lies below 2^30. */
  lemma EndBelow(k: nat)
    requires k <= 256
    ensures End(k) <= 0x4000_0000
  {
    hide Start, End;
    TileEnds();
    if k < 256 {
      StartsIncrease(k, 256);
      StartBelowEnd();
    }
  }

  lemma StartBelowEnd()
    ensures Start(256) <= End(256)
  {
  }

  lemma CodewordFits(s: nat)
    requires s <= 256
    ensures Entry(s).symbol == s
    ensures 5 <= Entry(s).numbits <= 30
    ensures Entry(s).bits < Pow2(Entry(s).numbits)
  {
    hide Entry, Pow2;
    var k := RankOfSymbol(s);
    var n := LengthAt(k);
    EndBelow(k);
    SpanIsPow2(n);
    Pow2Add(n, 30 - n);
    Pow2Literals();
    HuffmanTable.Distribute(Entry(s).bits, Span(n));
    MulCancel(Entry(s).bits + 1, Pow2(n), Span(n));
  }

  lemma CodeFacts(s: nat)
    requires s <= 256
    ensures 5 <= |Code(s)| <= 30
    ensures Value(Code(s)) == Entry(s).bits
  {
    CodewordFits(s);
    ValueOfBits(Entry(s).bits, Entry(s).numbits);
  }

  lemma QuotientRange(v: nat, d: nat, q: nat)
    requires d > 0
    ensures v / d == q <==> q * d <= v < q * d + d
  {
    var q', r := v / d, v % d;
    assert v == q' * d + r;
    if q * d <= v < q * d + d {
      DivModUnique(v, d, q, v - q * d);
    }
  }

  /** A 30-bit word starts with a codeword exactly when it lies in that codeword's tile. */
  lemma PrefixIsTile(s: nat, k: nat, w: seq<bool>)
    requires k <= 256 && CodeAt(s, k) && |w| == 30
    ensures Code(s) <= w <==> Start(k) <= Value(w) < End(k)
  {
    var n := LengthAt(k);
    CodeFacts(s);
    SpanIsPow2(n);
    PrefixByValue(Code(s), w);
    QuotientRange(Value(w), Pow2(30 - n), Entry(s).bits);
  }

  /** Widens or cuts a bit string to 30 bits. */
  function ToThirty(w: seq<bool>): (v: seq<bool>)
    ensures |v| == 30
  {
    if |w| >= 30 then w[..30] else w + Ones(30 - |w|)
  }

  lemma SameTile(s: nat, t: nat, v: seq<bool>)
    requires s <= 256 && t <= 256 && |v| == 30
    requires Code(s) <= v && Code(t) <= v
    ensures s == t
  {
    hide Code, CodeAt, Start, End, Value;
    var j := RankOfSymbol(s);
    var k := RankOfSymbol(t);
    PrefixIsTile(s, j, v);
    PrefixIsTile(t, k, v);
    if j < k {
      StartsIncrease(j, k);
    } else if k < j {
      StartsIncrease(k, j);
    } else {
      SymbolUnique(s, t, k);
    }
  }

  /** Prefix-freeness: at most one table entry matches the front of a bit string. */
  lemma PrefixFree(s: nat, t: nat, w: seq<bool>)
    requires s <= 256 && t <= 256
    requires Code(s) <= w && Code(t) <= w
    ensures s == t
  {
    hide Code;
    CodeFacts(s);
    CodeFacts(t);
    SameTile(s, t, ToThirty(w));
  }

  /** Completeness: thirty bits always start with some codeword. */
  lemma Complete(w: seq<bool>) returns (s: nat)
    requires |w| >= 30
    ensures s <= 256 && Code(s) <= w
  {
    var v := w[..30];
    Pow2Literals();
    TileEnds();
    var k := FindTile(Value(v), 256);
    s := SymbolOfRank(k);
    PrefixIsTile(s, k, v);
  }

  /** No table entry matches the front of `w`. */
  ghost predicate NoCode(w: seq<bool>) {
    forall s: nat | s <= 256 :: !(Code(s) <= w)
  }

  lemma ShortHasNoCode(w: seq<bool>)
    requires |w| < 5
    ensures NoCode(w)
  {
    hide Code;
    forall s: nat | s <= 256
      ensures !(Code(s) <= w)
    {
      CodeFacts(s);
    }
  }

  lemma NoCodeIsShort(w: seq<bool>)
    requires NoCode(w)
    ensures |w| < 30
  {
    if |w| >= 30 {
      var s := Complete(w);
    }
  }

  /** Fewer than eight one-bits are no codeword: the all-ones codeword has thirty of them. */
  lemma PaddingHasNoCode(n: nat)
    requires n < 8
    ensures NoCode(Ones(n))
  {
    var end := END_OF_SYMBOLS;
    ValueOnes(30);
    Pow2Literals();
    assert Code(end) == Ones(30) by {
      CodeFacts(end);
      assert Entry(end) == HuffmanEntry(0x3fffffff, 30, 0x100);
      ValueInjective(Code(end), Ones(30));
    }
    forall s: nat | s <= 256
      ensures !(Code(s) <= Ones(n))
    {
      if Code(s) <= Ones(n) {
        assert Code(s) <= Ones(30);
        PrefixFree(s, end, Ones(30));
      }
    }
  }

  // ---------------------------------------------------------------- strings of codewords

  function EncodeBits(text: seq<byte>): seq<bool> {
    if |text| == 0 then [] else Code(text[0]) + EncodeBits(text[1..])
  }

  lemma {:induction false} EncodeBitsSnoc(text: seq<byte>, c: byte)
    ensures EncodeBits(text + [c]) == EncodeBits(text) + Code(c)
  {
    hide Code;
    if |text| == 0 {
      assert text + [c] == [c];
      assert [c][1..] == [];
    } else {
      EncodeBitsSnoc(text[1..], c);
      assert (text + [c])[1..] == text[1..] + [c];
    }
  }

  lemma StripHead(c: byte, u: seq<bool>, d: byte, v: seq<bool>)
    requires Code(c) + u == Code(d) + v
    ensures c == d && u == v
  {
    hide Code;
    var bits := Code(c) + u;
    assert Code(c) <= bits && Code(d) <= bits;
    PrefixFree(c, d, bits);
    assert u == bits[|Code(c)|..] == v;
  }

  /** Reading off codewords is deterministic: if `a` is as far as one can read, then any other
      reading `b` of the same bits stopped earlier on the way to `a`. */
  lemma {:induction false} Strip(a: seq<byte>, x: seq<bool>, b: seq<byte>, y: seq<bool>)
    requires EncodeBits(a) + x == EncodeBits(b) + y
    requires NoCode(x)
    ensures b <= a
    ensures y == EncodeBits(a[|b|..]) + x
  {
    hide Code;
    if |b| == 0 {
      assert y == EncodeBits(b) + y;
    } else {
      ConcatAssociative(Code(b[0]), EncodeBits(b[1..]), y);
      var v := EncodeBits(b[1..]) + y;
      if |a| == 0 {
        NotAtFront(x, b[0], v);
      } else {
        ConcatAssociative(Code(a[0]), EncodeBits(a[1..]), x);
        StripHead(a[0], EncodeBits(a[1..]) + x, b[0], v);
        Strip(a[1..], x, b[1..], y);
        assert a[1..][|b[1..]|..] == a[|b|..];
      }
    }
  }

  lemma NotAtFront(x: seq<bool>, c: byte, v: seq<bool>)
    requires NoCode(x)
    ensures [] + x != Code(c) + v
  {
    hide Code;
    assert Code(c) <= Code(c) + v;
    assert [] + x == x;
  }

  /** How many one-bits fill the last byte. */
  function PaddingLength(bits: seq<bool>): (n: nat)
    ensures n < 8 && (|bits| + n) % 8 == 0
  {
    (8 - |bits| % 8) % 8
  }

  /** Codewords back to back, then one-bits up to a byte boundary (RFC 7541, section 5.2). */
  function HuffmanEncode(text: seq<byte>): seq<byte> {
    var bits := EncodeBits(text);
    Pack(bits + Ones(PaddingLength(bits)))
  }

  lemma EncodedBits(text: seq<byte>)
    ensures BytesToBits(HuffmanEncode(text))
         == EncodeBits(text) + Ones(PaddingLength(EncodeBits(text)))
  {
    hide EncodeBits, BytesToBits, Pack;
    PackToBits(EncodeBits(text) + Ones(PaddingLength(EncodeBits(text))));
  }

  lemma EncodedFromBits(text: seq<byte>, n: nat, bytes: seq<byte>)
    requires n < 8 && BytesToBits(bytes) == EncodeBits(text) + Ones(n)
    ensures HuffmanEncode(text) == bytes
  {
    hide EncodeBits, BytesToBits, Pack;
    assert n == PaddingLength(EncodeBits(text));
    BitsToPack(bytes);
  }

  /** No two strings have the same encoding. */
  lemma HuffmanEncodeInjective(s: seq<byte>, t: seq<byte>)
    requires HuffmanEncode(s) == HuffmanEncode(t)
    ensures s == t
  {
    EncodedBits(s);
    EncodedBits(t);
    var m, n := PaddingLength(EncodeBits(s)), PaddingLength(EncodeBits(t));
    PaddingHasNoCode(m);
    PaddingHasNoCode(n);
    Strip(s, Ones(m), t, Ones(n));
    Strip(t, Ones(n), s, Ones(m));
  }

  /** The only text, if any, with the given encoding. */
  ghost function HuffmanDecode(bytes: seq<byte>): Option<seq<byte>> {
    if text: seq<byte> :| HuffmanEncode(text) == bytes then Some(text) else None
  }

  /** Decoding and encoding are inverse to one another, on all texts and on all inputs. */
  lemma HuffmanBijection(bytes: seq<byte>, text: seq<byte>)
    ensures HuffmanDecode(bytes) == Some(text) <==> HuffmanEncode(text) == bytes
  {
    if HuffmanEncode(text) == bytes {
      HuffmanEncodeInjective(text, HuffmanDecode(bytes).value);
    }
  }

  /** The longest codeword has thirty bits. */
  lemma EncodedLength(text: seq<byte>)
    ensures |HuffmanEncode(text)| <= (30 * |text| + 7) / 8
  {
    EncodeBitsLength(text);
  }

  lemma {:induction false} EncodeBitsLength(text: seq<byte>)
    ensures |EncodeBits(text)| <= 30 * |text|
  {
    hide Code;
    if |text| > 0 {
      CodeFacts(text[0]);
      EncodeBitsLength(text[1..]);
    }
  }

  // ---------------------------------------------------------------- an example

  /** The codewords of a text, joined, are these `n` bits of value `v`. */
  ghost predicate Spells(text: seq<byte>, n: nat, v: int) {
    |EncodeBits(text)| == n && Value(EncodeBits(text)) == v
  }

  lemma SpellMore(text: seq<byte>, n: nat, v: int, c: byte, e: HuffmanEntry, p: nat)
    requires Spells(text, n, v) && e == Entry(c) && p == Pow2(e.numbits)
    ensures Spells(text + [c], n + e.numbits, v * p + e.bits)
  {
    hide EncodeBits, Value, Code, Entry, Pow2;
    EncodeBitsSnoc(text, c);
    CodeFacts(c);
    ValueConcat(EncodeBits(text), Code(c));
    CodeLength(c);
  }

  lemma CodeLength(c: byte)
    ensures |Code(c)| == Entry(c).numbits
  {
  }

  lemma SpellNothing()
    ensures Spells([], 0, 0)
  {
  }

  lemma SpellFirst()
    ensures Spells(Ascii("www.e"), 32, 0xf1e3_c2e5)
  {
    hide Spells, Pow2;
    Pow2Literals();
    SpellNothing();
    assert Ascii("") == [];
    SpellMore(Ascii(""), 0, 0x0, 0x77, Entry(0x77), 0x80);
    assert Ascii("") + [0x77] == Ascii("w");
    SpellMore(Ascii("w"), 7, 0x78, 0x77, Entry(0x77), 0x80);
    assert Ascii("w") + [0x77] == Ascii("ww");
    SpellMore(Ascii("ww"), 14, 0x3c78, 0x77, Entry(0x77), 0x80);
    assert Ascii("ww") + [0x77] == Ascii("www");
    SpellMore(Ascii("www"), 21, 0x1e_3c78, 0x2e, Entry(0x2e), 0x40);
    assert Ascii("www") + [0x2e] == Ascii("www.");
    SpellMore(Ascii("www."), 27, 0x78f_1e17, 0x65, Entry(0x65), 0x20);
    assert Ascii("www.") + [0x65] == Ascii("www.e");
  }

  lemma SpellSecond()
    requires Spells(Ascii("www.e"), 32, 0xf1e3_c2e5)
    ensures Spells(Ascii("www.exampl"), 62, 0x3c78_f0b9_7c8e_9ae8)
  {
    hide Spells, Pow2;
    Pow2Literals();
    SpellMore(Ascii("www.e"), 32, 0xf1e3_c2e5, 0x78, Entry(0x78), 0x80);
    assert Ascii("www.e") + [0x78] == Ascii("www.ex");
    SpellMore(Ascii("www.ex"), 39, 0x78_f1e1_72f9, 0x61, Entry(0x61), 0x20);
    assert Ascii("www.ex") + [0x61] == Ascii("www.exa");
    SpellMore(Ascii("www.exa"), 44, 0xf1e_3c2e_5f23, 0x6d, Entry(0x6d), 0x40);
    assert Ascii("www.exa") + [0x6d] == Ascii("www.exam");
    SpellMore(Ascii("www.exam"), 50, 0x3_c78f_0b97_c8e9, 0x70, Entry(0x70), 0x40);
    assert Ascii("www.exam") + [0x70] == Ascii("www.examp");
    SpellMore(Ascii("www.examp"), 56, 0xf1_e3c2_e5f2_3a6b, 0x6c, Entry(0x6c), 0x40);
    assert Ascii("www.examp") + [0x6c] == Ascii("www.exampl");
  }

  lemma SpellThird()
    requires Spells(Ascii("www.exampl"), 62, 0x3c78_f0b9_7c8e_9ae8)
    ensures Spells(Ascii("www.example.com"), 89, 0x1e3_c785_cbe4_74d7_4157_21e9)
  {
    hide Spells, Pow2;
    Pow2Literals();
    SpellMore(Ascii("www.exampl"), 62, 0x3c78_f0b9_7c8e_9ae8, 0x65, Entry(0x65), 0x20);
    assert Ascii("www.exampl") + [0x65] == Ascii("www.example");
    SpellMore(Ascii("www.example"), 67, 0x7_8f1e_172f_91d3_5d05, 0x2e, Entry(0x2e), 0x40);
    assert Ascii("www.example") + [0x2e] == Ascii("www.example.");
    SpellMore(Ascii("www.example."), 73, 0x1e3_c785_cbe4_74d7_4157, 0x63, Entry(0x63), 0x20);
    assert Ascii("www.example.") + [0x63] == Ascii("www.example.c");
    SpellMore(Ascii("www.example.c"), 78, 0x3c78_f0b9_7c8e_9ae8_2ae4, 0x6f, Entry(0x6f), 0x20);
    assert Ascii("www.example.c") + [0x6f] == Ascii("www.example.co");
    SpellMore(Ascii("www.example.co"), 83, 0x7_8f1e_172f_91d3_5d05_5c87, 0x6d, Entry(0x6d), 0x40);
    assert Ascii("www.example.co") + [0x6d] == Ascii("www.example.com");
  }

  /** The bytes, as one number in network order. */
  ghost predicate Reads(bytes: seq<byte>, v: nat) {
    Value(BytesToBits(bytes)) == v
  }

  lemma ReadMore(bytes: seq<byte>, v: nat, last: byte)
    requires Reads(bytes, v)
    ensures Reads(bytes + [last], 0x100 * v + last)
  {
    hide Value, BytesToBits;
    NetworkOrder(bytes, last);
  }

  const WWW_EXAMPLE_COM: seq<byte> := [0xf1, 0xe3, 0xc2, 0xe5, 0xf2, 0x3a, 0x6b, 0xa0, 0xab, 0x90, 0xf4, 0xff]

  lemma ReadExample()
    ensures Reads(WWW_EXAMPLE_COM, 0xf1e3_c2e5_f23a_6ba0_ab90_f4ff)
  {
    hide Reads;
    var b := WWW_EXAMPLE_COM;
    assert Reads(b[..0], 0) by {
      NoBytes();
      ReadNothing(b[..0]);
    }
    ReadMore(b[..0], 0x0, 0xf1);
    assert b[..0] + [0xf1] == b[..1];
    ReadMore(b[..1], 0xf1, 0xe3);
    assert b[..1] + [0xe3] == b[..2];
    ReadMore(b[..2], 0xf1e3, 0xc2);
    assert b[..2] + [0xc2] == b[..3];
    ReadMore(b[..3], 0xf1_e3c2, 0xe5);
    assert b[..3] + [0xe5] == b[..4];
    ReadMore(b[..4], 0xf1e3_c2e5, 0xf2);
    assert b[..4] + [0xf2] == b[..5];
    ReadMore(b[..5], 0xf1_e3c2_e5f2, 0x3a);
    assert b[..5] + [0x3a] == b[..6];
    ReadMore(b[..6], 0xf1e3_c2e5_f23a, 0x6b);
    assert b[..6] + [0x6b] == b[..7];
    ReadMore(b[..7], 0xf1_e3c2_e5f2_3a6b, 0xa0);
    assert b[..7] + [0xa0] == b[..8];
    ReadMore(b[..8], 0xf1e3_c2e5_f23a_6ba0, 0xab);
    assert b[..8] + [0xab] == b[..9];
    ReadMore(b[..9], 0xf1_e3c2_e5f2_3a6b_a0ab, 0x90);
    assert b[..9] + [0x90] == b[..10];
    ReadMore(b[..10], 0xf1e3_c2e5_f23a_6ba0_ab90, 0xf4);
    assert b[..10] + [0xf4] == b[..11];
    ReadMore(b[..11], 0xf1_e3c2_e5f2_3a6b_a0ab_90f4, 0xff);
    assert b[..11] + [0xff] == b[..12];
    assert b[..12] == b;
  }

  lemma ReadNothing(bytes: seq<byte>)
    requires bytes == []
    ensures Reads(bytes, 0)
  {
  }

  /** "www.example.com", as RFC 7541, section C.4.1, encodes it. */
  lemma ExampleOfTheRfc()
    ensures HuffmanEncode(Ascii("www.example.com")) == WWW_EXAMPLE_COM
  {
    hide Value, EncodeBits, BytesToBits, HuffmanEncode, Pow2;
    SpellFirst();
    SpellSecond();
    SpellThird();
    ReadExample();
    var bits := EncodeBits(Ascii("www.example.com"));
    Pow2Literals();
    ValueOnes(7);
    ValueConcat(bits, Ones(7));
    ValueInjective(BytesToBits(WWW_EXAMPLE_COM), bits + Ones(7));
    EncodedFromBits(Ascii("www.example.com"), 7, WWW_EXAMPLE_COM);
  }
}
