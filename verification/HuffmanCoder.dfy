/** The two loops of the Huffman coder: a 64-bit accumulator `partial` of which only the low
    `partialbits` bits are meaningful. */
module HuffmanCoder {
  import opened Bytes
  import opened HuffmanTable
  import opened Huffman

  // ---------------------------------------------------------------- accumulator arithmetic

  /** `(partial << n) | bits` on a 64-bit word: high bits fall off, the vacated ones are filled. */
  function ShiftIn(partial: uint64, n: nat, bits: nat): (word: uint64)
    requires n <= 64 && bits < Pow2(n)
  {
    ShiftInBound(partial, n, bits);
    (partial * Pow2(n)) % TWO_64 + bits
  }

  /** A two-digit number in base `a` is below its bound. */
  lemma DigitsBelow(s: nat, r: nat, a: nat, b: nat)
    requires r < a && s < b
    ensures s * a + r < b * a
  {
    MulAtLeast(b - s, a);
    assert (b - s) * a == b * a - s * a;
  }

  lemma MulModFactor(x: nat, d: nat, k: nat)
    requires d > 0 && k > 0
    ensures k * d > 0 && (x * d) % (k * d) == (x % k) * d
  {
    var q, r := x / k, x % k;
    DigitsBelow(r, 0, d, k);
    MulRegroup(q, d, k, r);
    assert k * d == d * k;
    DivModUnique(x * d, k * d, q, r * d);
  }

  lemma ShiftedWord(partial: uint64, n: nat)
    requires n <= 64
    ensures (partial * Pow2(n)) % TWO_64 == (partial % Pow2(64 - n)) * Pow2(n)
    ensures Pow2(64 - n) * Pow2(n) == TWO_64
  {
    Pow2Add(64 - n, n);
    Pow2Literals();
    MulModFactor(partial, Pow2(n), Pow2(64 - n));
  }

  lemma ModBelow(x: int, d: nat)
    requires d > 0
    ensures 0 <= x % d < d
  {
  }

  lemma ShiftInBound(partial: uint64, n: nat, bits: nat)
    requires n <= 64 && bits < Pow2(n)
    ensures 0 <= (partial * Pow2(n)) % TWO_64 + bits < TWO_64
  {
    hide Pow2;
    ShiftedWord(partial, n);
    ModBelow(partial, Pow2(64 - n));
    ModBelow(partial * Pow2(n), TWO_64);
    DigitsBelow(partial % Pow2(64 - n), bits, Pow2(n), Pow2(64 - n));
  }

  /** Below the meaningful bits the word may hold anything: they survive the shift unharmed. */
  lemma ShiftInLowBits(partial: uint64, m: nat, n: nat, bits: nat)
    requires m + n <= 64 && bits < Pow2(n)
    ensures LowBits(ShiftIn(partial, n, bits), m + n) == LowBits(partial, m) * Pow2(n) + bits
  {
    ShiftedWord(partial, n);
    Pow2Add(m, 64 - n - m);
    Pow2Add(m, n);
    ModOfMultiple(partial, Pow2(m), Pow2(64 - n - m));
    AppendDigit(partial % Pow2(64 - n), Pow2(m), Pow2(n), bits);
  }

  lemma AppendDigit(high: nat, m: nat, d: nat, bits: nat)
    requires m > 0 && bits < d
    ensures m * d > 0 && (high * d + bits) % (m * d) == (high % m) * d + bits
  {
    var q, r := high / m, high % m;
    DigitsBelow(r, bits, d, m);
    MulRegroup(q, d, m, r);
    assert d * m == m * d;
    DivModUnique(high * d + bits, m * d, q, r * d + bits);
  }

  /** Shifting right first and masking after is masking first and shifting after. */
  lemma ShiftRight(x: nat, a: nat, b: nat)
    requires a > 0 && b > 0
    ensures b * a > 0 && (x / a) % b == (x % (b * a)) / a
    ensures x % a == (x % (b * a)) % a
  {
    var y, r := x / a, x % a;
    var q, s := y / b, y % b;
    DigitsBelow(s, r, a, b);
    ThreeDigits(x, a, b, y, q, s, r);
    DivModUnique(x, b * a, q, s * a + r);
    DivModUnique(s * a + r, a, s, r);
  }

  lemma ThreeDigits(x: nat, a: nat, b: nat, y: nat, q: nat, s: nat, r: nat)
    requires x == y * a + r && y == q * b + s
    ensures x == q * (b * a) + (s * a + r)
  {
    MulRegroup(q, a, b, s);
    assert a * b == b * a;
  }

  /** Taking the top byte of the meaningful bits. */
  lemma TopByte(partial: uint64, rest: seq<bool>)
    requires |rest| >= 8 && LowBits(partial, |rest|) == Value(rest)
    ensures LowBits(ShiftDown(partial, |rest| - 8), 8) == Value(rest[..8]) < 0x100
    ensures LowBits(partial, |rest| - 8) == Value(rest[8..])
  {
    hide Value;
    var a := Pow2(|rest| - 8);
    Pow2Add(8, |rest| - 8);
    Pow2Literals();
    ShiftRight(partial, a, 0x100);
    ValueSplit(rest[..8], rest[8..]);
    assert rest == rest[..8] + rest[8..];
  }

  lemma BytesToBitsSnoc(bytes: seq<byte>, b: byte)
    ensures BytesToBits(bytes + [b]) == BytesToBits(bytes) + BitsOf(b, 8)
  {
    assert (bytes + [b])[..|bytes|] == bytes;
  }

  /** Moving the next eight bits into the output keeps the bits written so far in order. */
  lemma EmitByte(output: seq<byte>, rest: seq<bool>, b: byte)
    requires |rest| >= 8 && b == Value(rest[..8])
    ensures BytesToBits(output + [b]) + rest[8..] == BytesToBits(output) + rest
  {
    hide BytesToBits, BitsOf, Value;
    BytesToBitsSnoc(output, b);
    BitsOfValue(rest[..8]);
    assert rest == rest[..8] + rest[8..];
  }

  // ---------------------------------------------------------------- encoding

  /** The next codeword joins the bits not yet written. */
  lemma AppendCode(input: seq<byte>, p: nat, output: seq<byte>, rest: seq<bool>, partial: uint64)
    requires p < |input| && |rest| < 8
    requires BytesToBits(output) + rest == EncodeBits(input[..p])
    requires LowBits(partial, |rest|) == Value(rest)
    ensures var e, code := Entry(input[p]), Code(input[p]);
            && 5 <= |code| == e.numbits <= 30 && e.bits < Pow2(e.numbits)
            && BytesToBits(output) + (rest + code) == EncodeBits(input[..p + 1])
            && LowBits(ShiftIn(partial, e.numbits, e.bits), |rest| + e.numbits) == Value(rest + code)
  {
    hide Entry, Value, BytesToBits, EncodeBits, ShiftIn, LowBits, Pow2, BitsOf;
    var e, code := Entry(input[p]), Code(input[p]);
    CodewordFits(input[p]);
    CodeFacts(input[p]);
    ShiftInLowBits(partial, |rest|, e.numbits, e.bits);
    ValueConcat(rest, code);
    EncodeBitsSnoc(input[..p], input[p]);
    assert input[..p + 1] == input[..p] + [input[p]];
    ConcatAssociative(BytesToBits(output), rest, code);
  }

  method EncodeHuffman(input: seq<byte>) returns (output: seq<byte>)
    ensures output == HuffmanEncode(input)
  {
    hide Code, Value, BytesToBits, Entry, BitsOf, EncodeBits, ShiftIn, ShiftDown, LowBits, HuffmanEncode;
    output := [];
    var partial: uint64, partialbits: nat := 0, 0;
    ghost var rest: seq<bool> := [];
    var p := 0;
    EmptyBits();
    while p < |input|
      invariant p <= |input|
      invariant |rest| == partialbits < 8
      invariant BytesToBits(output) + rest == EncodeBits(input[..p])
      invariant LowBits(partial, partialbits) == Value(rest)
    {
      CodewordFits(input[p]);
      var e := Entry(input[p]);
      AppendCode(input, p, output, rest, partial);
      rest := rest + Code(input[p]);
      partial := ShiftIn(partial, e.numbits, e.bits);
      partialbits := partialbits + e.numbits;
      p := p + 1;
      while partialbits >= 8
        invariant |rest| == partialbits <= 37
        invariant BytesToBits(output) + rest == EncodeBits(input[..p])
        invariant LowBits(partial, partialbits) == Value(rest)
      {
        TopByte(partial, rest);
        var tmp := LowBits(ShiftDown(partial, partialbits - 8), 8);
        EmitByte(output, rest, tmp);
        output := output + [tmp];
        rest := rest[8..];
        partialbits := partialbits - 8;
      }
    }
    assert input[..p] == input;
    var fill := 8 - partialbits;
    if partialbits > 0 {
      LastByte(partial, rest);
      var tmp := LowBits(ShiftIn(partial, fill, 0), 8) + (Pow2(fill) - 1);
      Padded(input, output, rest, tmp);
      output := output + [tmp];
    } else {
      assert rest == [] && Ones(0) == [];
      EncodedFromBits(input, 0, output);
    }
  }

  /** Filling the last byte with one-bits completes the encoding. */
  lemma Padded(input: seq<byte>, output: seq<byte>, rest: seq<bool>, last: byte)
    requires 0 < |rest| < 8 && BytesToBits(output) + rest == EncodeBits(input)
    requires last == Value((rest + Ones(8 - |rest|))[..8])
    ensures HuffmanEncode(input) == output + [last]
  {
    hide BytesToBits, EncodeBits, HuffmanEncode, Value;
    var fill := Ones(8 - |rest|);
    EmitByte(output, rest + fill, last);
    assert (rest + fill)[8..] == [];
    ConcatAssociative(BytesToBits(output), rest, fill);
    assert BytesToBits(output + [last]) + [] == BytesToBits(output + [last]);
    EncodedFromBits(input, |fill|, output + [last]);
  }

  lemma EmptyBits()
    ensures BytesToBits([]) + [] == EncodeBits([]) && Value([]) == 0 == LowBits(0, 0)
  {
  }

  /** The final byte: the leftover bits on top, one-bits below. */
  lemma LastByte(partial: uint64, rest: seq<bool>)
    requires 0 < |rest| < 8 && LowBits(partial, |rest|) == Value(rest)
    ensures var fill := 8 - |rest|;
            && |rest + Ones(fill)| == 8
            && LowBits(ShiftIn(partial, fill, 0), 8) + (Pow2(fill) - 1)
               == Value((rest + Ones(fill))[..8]) < 0x100
  {
    hide Value, ShiftIn, LowBits, Pow2;
    var fill := 8 - |rest|;
    Pow2Literals();
    ShiftInLowBits(partial, |rest|, fill, 0);
    ValueConcat(rest, Ones(fill));
    ValueOnes(fill);
    assert (rest + Ones(fill))[..8] == rest + Ones(fill);
  }

  // ---------------------------------------------------------------- decoding

  /** Why decoding ended. */
  datatype Verdict = Complete | EndOfString | BadPadding | CodeTooLong

  /** The bits of `input` spell out some text and then the end-of-string symbol. */
  ghost predicate SpellsEndOfString(input: seq<byte>) {
    exists text: seq<byte>, x: seq<bool> ::
      BytesToBits(input) == EncodeBits(text) + (Code(END_OF_SYMBOLS) + x)
  }

  /** The table scan: the first entry that matches the front of the accumulator. */
  method FindEntry(partial: uint64, partialbits: nat) returns (found: bool, e: HuffmanEntry)
    requires partial < Pow2(partialbits)
    ensures !found ==> NoCode(BitsOf(partial, partialbits))
    ensures found ==> e.symbol <= 256 && e == Entry(e.symbol) && Code(e.symbol) <= BitsOf(partial, partialbits)
  {
    hide Entry, BitsOf, Value, Code, Pow2;
    ghost var rest := BitsOf(partial, partialbits);
    ValueOfBits(partial, partialbits);
    found := false;
    e := Entry(0);
    var i := 0;
    while i < 257
      invariant i <= 257 && !found
      invariant forall s: nat | s < i :: !(Code(s) <= rest)
    {
      e := Entry(i);
      CodewordFits(i);
      CodeFacts(i);
      CodeLength(i);
      if e.numbits <= partialbits {
        PrefixByValue(Code(i), rest);
        if e.bits == ShiftDown(partial, partialbits - e.numbits) {
          found := true;
          return;
        }
      }
      i := i + 1;
    }
  }

  lemma CodeLength(s: nat)
    requires s <= 256
    ensures |Code(s)| == Entry(s).numbits
  {
  }

  /** Decoding is the inverse of `HuffmanEncode` and accepts nothing else. */
  method DecodeHuffman(input: seq<byte>)
    returns (ok: bool, output: seq<byte>, ghost verdict: Verdict)
    ensures ok ==> HuffmanEncode(output) == input
    ensures !ok ==> forall text: seq<byte> :: HuffmanEncode(text) != input
    ensures HuffmanDecode(input) == if ok then Some(output) else None
    ensures ok <==> verdict == Complete
    ensures verdict != CodeTooLong
    ensures verdict == EndOfString <==> SpellsEndOfString(input)
  {
    hide Entry, BitsOf, Value, Code, BytesToBits, EncodeBits;
    hide NoCode, HuffmanEncode, SpellsEndOfString, ShiftIn, LowBits, Pow2;
    output := [];
    var partial: uint64, partialbits: nat := 0, 0;
    ghost var rest: seq<bool>, settled: seq<bool> := [], [];
    var p := 0;
    EmptyBits();
    ShortHasNoCode([]);
    while true
      invariant p <= |input|
      invariant |rest| == partialbits <= 37 && Value(rest) == partial
      invariant BytesToBits(input[..p]) + [] == EncodeBits(output) + rest
      invariant settled <= rest && |rest| <= |settled| + 8 && NoCode(settled)
      decreases |input| - p
    {
      if partialbits >= 5 {
        var redo := true;
        while redo
          invariant |rest| == partialbits <= 37 && Value(rest) == partial
          invariant BytesToBits(input[..p]) + [] == EncodeBits(output) + rest
          invariant settled <= rest && |rest| <= |settled| + 8 && NoCode(settled)
          invariant !redo ==> NoCode(rest)
          decreases partialbits, redo
        {
          redo := false;
          BitsOfValue(rest);
          var found, e := FindEntry(partial, partialbits);
          if found {
            if e.symbol > 0xff {
              SawEndOfString(input, p, output, rest);
              ok, verdict := false, EndOfString;
              return;
            }
            CodewordFits(e.symbol);
            CodeLength(e.symbol);
            LongerThanSettled(e.symbol, settled, rest);
            TakeCode(output, e.symbol, rest);
            output := output + [e.symbol];
            partialbits := partialbits - e.numbits;
            partial := LowBits(partial, partialbits);
            rest := rest[e.numbits..];
            settled := [];
            ShortHasNoCode(settled);
            redo := true;
          } else {
            settled := rest;
            NoCodeIsShort(rest);
          }
          if partialbits >= 30 {
            ok, verdict := false, CodeTooLong;
            return;
          }
        }
      } else {
        ShortHasNoCode(rest);
      }
      settled := rest;
      if p == |input| {
        assert input[..p] == input;
        ok := partialbits < 8 && partial == Pow2(partialbits) - 1;
        verdict := if ok then Complete else BadPadding;
        FinalBits(input, output, rest, ok);
        HuffmanBijection(input, output);
        return;
      }
      NoCodeIsShort(rest);
      PullByte(input, p, output, rest);
      rest := rest + BitsOf(input[p], 8);
      partial := ShiftIn(partial, 8, input[p]);
      p := p + 1;
      partialbits := partialbits + 8;
    }
  }

  /** A match consumes everything that had already been scanned in vain, so what it leaves of
      the accumulator is less than a byte. */
  lemma LongerThanSettled(s: nat, settled: seq<bool>, rest: seq<bool>)
    requires s <= 256 && Code(s) <= rest && settled <= rest && NoCode(settled)
    ensures |Code(s)| > |settled|
  {
    hide Code;
    var code := Code(s);
    assert |code| <= |settled| ==> code <= settled;
  }

  lemma TakeCode(output: seq<byte>, c: byte, rest: seq<bool>)
    requires Code(c) <= rest
    ensures EncodeBits(output + [c]) + rest[|Code(c)|..] == EncodeBits(output) + rest
    ensures Value(rest[|Code(c)|..]) == LowBits(Value(rest), |rest| - |Code(c)|)
  {
    hide Code, Entry, Value, EncodeBits;
    EncodeBitsSnoc(output, c);
    PrefixSplit(Code(c), rest);
    ValueSplit(Code(c), rest[|Code(c)|..]);
    ConcatAssociative(EncodeBits(output), Code(c), rest[|Code(c)|..]);
  }

  lemma PullByte(input: seq<byte>, p: nat, output: seq<byte>, rest: seq<bool>)
    requires p < |input| && |rest| < 30
    requires BytesToBits(input[..p]) + [] == EncodeBits(output) + rest
    ensures Pow2(8) > input[p]
    ensures BytesToBits(input[..p + 1]) + [] == EncodeBits(output) + (rest + BitsOf(input[p], 8))
    ensures Value(rest) < TWO_64
    ensures Value(rest + BitsOf(input[p], 8)) == ShiftIn(Value(rest), 8, input[p])
  {
    hide BytesToBits, BitsOf, EncodeBits, Value, ShiftIn, Pow2;
    BytesToBitsSnoc(input[..p], input[p]);
    assert input[..p + 1] == input[..p] + [input[p]];
    assert BytesToBits(input[..p]) == EncodeBits(output) + rest;
    assert (EncodeBits(output) + rest) + BitsOf(input[p], 8)
        == EncodeBits(output) + (rest + BitsOf(input[p], 8));
    ValueConcat(rest, BitsOf(input[p], 8));
    Pow2Monotone(|rest|, 30);
    Pow2Literals();
    ValueOfBits(input[p], 8);
    ShiftInByte(Value(rest), input[p]);
  }

  lemma ShiftInByte(v: uint64, b: byte)
    requires v < 0x4000_0000
    ensures Pow2(8) == 0x100 && ShiftIn(v, 8, b) == v * 0x100 + b
  {
    Pow2Literals();
  }

  lemma SawEndOfString(input: seq<byte>, p: nat, output: seq<byte>, rest: seq<bool>)
    requires p <= |input|
    requires BytesToBits(input[..p]) + [] == EncodeBits(output) + rest
    requires Code(END_OF_SYMBOLS) <= rest
    ensures SpellsEndOfString(input)
    ensures forall text: seq<byte> :: HuffmanEncode(text) != input
  {
    hide BytesToBits, Code, Entry, EncodeBits, HuffmanEncode;
    var end, more := Code(END_OF_SYMBOLS), BytesToBits(input[p..]);
    BytesToBitsConcat(input[..p], input[p..]);
    assert input == input[..p] + input[p..];
    assert BytesToBits(input[..p]) == EncodeBits(output) + rest;
    var x := rest[|end|..] + more;
    PrefixSplit(end, rest);
    ConcatAssociative(end, rest[|end|..], more);
    ConcatAssociative(EncodeBits(output), rest, more);
    assert BytesToBits(input) == EncodeBits(output) + (end + x);
    forall text: seq<byte>
      ensures HuffmanEncode(text) != input
    {
      if HuffmanEncode(text) == input {
        EncodedBits(text);
        var n := PaddingLength(EncodeBits(text));
        PaddingHasNoCode(n);
        NoEndOfString(text, Ones(n), output, x);
      }
    }
  }

  lemma {:induction false} BytesToBitsConcat(a: seq<byte>, b: seq<byte>)
    ensures BytesToBits(a + b) == BytesToBits(a) + BytesToBits(b)
  {
    hide BitsOf;
    if |b| == 0 {
      assert a + b == a;
    } else {
      BytesToBitsConcat(a, b[..|b| - 1]);
      assert (a + b)[..|a + b| - 1] == a + b[..|b| - 1];
    }
  }

  /** Bits that can be read to the end as symbols of `text` never spell the end of string. */
  lemma NoEndOfString(text: seq<byte>, tail: seq<bool>, other: seq<byte>, x: seq<bool>)
    requires NoCode(tail)
    ensures EncodeBits(text) + tail != EncodeBits(other) + (Code(END_OF_SYMBOLS) + x)
  {
    hide Code, Entry;
    var end := Code(END_OF_SYMBOLS);
    assert end <= end + x;
    if EncodeBits(text) + tail == EncodeBits(other) + (end + x) {
      Strip(text, tail, other, end + x);
      var more := text[|other|..];
      assert |more| == 0 ==> EncodeBits(more) + tail == tail;
      if |more| > 0 {
        ConcatAssociative(Code(more[0]), EncodeBits(more[1..]), tail);
        PrefixFree(more[0], END_OF_SYMBOLS, end + x);
      }
    }
  }

  /** At the end of the input the leftover bits decide: padding, or nothing that was encoded. */
  lemma FinalBits(input: seq<byte>, output: seq<byte>, rest: seq<bool>, ok: bool)
    requires BytesToBits(input) + [] == EncodeBits(output) + rest && NoCode(rest)
    requires ok <==> |rest| < 8 && Value(rest) == Pow2(|rest|) - 1
    ensures ok ==> HuffmanEncode(output) == input
    ensures !ok ==> forall text: seq<byte> :: HuffmanEncode(text) != input
    ensures !SpellsEndOfString(input)
  {
    hide BytesToBits, Code, EncodeBits, HuffmanEncode, Value, NoCode;
    assert BytesToBits(input) == EncodeBits(output) + rest;
    ValueOnes(|rest|);
    if ok {
      ValueInjective(rest, Ones(|rest|));
      EncodedFromBits(output, |rest|, input);
    }
    forall text: seq<byte> | HuffmanEncode(text) == input
      ensures ok
    {
      EncodedBits(text);
      var n := PaddingLength(EncodeBits(text));
      PaddingHasNoCode(n);
      Strip(output, rest, text, Ones(n));
      Strip(text, Ones(n), output, rest);
      assert EncodeBits(text[|output|..]) + Ones(n) == rest;
      EmptyBits();
      assert text[|output|..] == [];
      assert rest == Ones(n);
    }
    if SpellsEndOfString(input) {
      var text: seq<byte>, x: seq<bool> :|
        BytesToBits(input) == EncodeBits(text) + (Code(END_OF_SYMBOLS) + x);
      NoEndOfString(output, rest, text, x);
    }
  }
}
