/** The variable-length integers of HPACK (RFC 7541, section 5.1). */
module Integers {
  import opened Bytes

  /** The all-ones value of an `n`-bit prefix. */
  function Mask(n: nat): (m: nat)
    requires n <= 8
    ensures m <= 0xff && m + 1 == Pow2(n)
  {
    Pow2Literals();
    Pow2Monotone(n, 8);
    Pow2(n) - 1
  }

  /** `b & mask` */
  function PrefixOf(b: byte, n: nat): (v: byte)
    requires n <= 8
    ensures v <= Mask(n)
  {
    LowBits(b, n)
  }

  // ---------------------------------------------------------------- encoding

  /** Seven bits per byte, least significant group first; the top bit marks continuation. */
  function Base128(w: nat): seq<byte> {
    if w < 0x80 then [w] else [0x80 + w % 0x80] + Base128(w / 0x80)
  }

  function EncodeInteger(hibits: byte, n: nat, value: nat): seq<byte>
    requires n <= 8 && hibits + Mask(n) <= 0xff
  {
    if value < Mask(n) then [hibits + value]
    else [hibits + Mask(n)] + Base128(value - Mask(n))
  }

  /** `hibits` are flags above the prefix, so that `value | hibits` is their sum. */
  method AppendInteger(hibits: byte, numbits: nat, value: uint32, output: seq<byte>)
    returns (result: seq<byte>)
    requires numbits <= 8
    requires PrefixOf(hibits, numbits) == 0 && hibits + Mask(numbits) <= 0xff
    ensures result == output + EncodeInteger(hibits, numbits, value)
  {
    var max := Mask(numbits);
    result := output;
    if value < max {
      result := result + [hibits + value];
      return;
    }
    result := result + [hibits + max];
    var v := value - max;
    while v >= 0x80
      invariant v >= 0
      invariant result + Base128(v) == output + ([hibits + max] + Base128(value - max))
    {
      assert result + Base128(v) == (result + [0x80 + v % 0x80]) + Base128(v / 0x80);
      result := result + [0x80 + v % 0x80];
      v := v / 0x80;
    }
    result := result + [v];
  }

  // ---------------------------------------------------------------- decoding

  /** `Truncated` is the failure return, which consumes no byte. `Undefined` stands for the
      sixth continuation byte, for which the code shifts a 32-bit one by 35. */
  datatype IntResult =
    | Decoded(value: uint32, used: nat)
    | Truncated
    | Undefined

  /** `acc + d * (1 << shift)` on 32-bit words. */
  function Accumulate(acc: uint32, d: nat, shift: nat): uint32 {
    (acc + d * Pow2(shift)) % TWO_32
  }

  function DecodeTail(b: seq<byte>, pos: nat, shift: nat, acc: uint32): (r: IntResult)
    ensures r.Decoded? ==> pos < r.used <= |b|
    decreases |b| - pos
  {
    if pos >= |b| then Truncated
    else if shift >= 32 then Undefined
    else
      var sum := Accumulate(acc, b[pos] % 0x80, shift);
      if b[pos] >= 0x80 then DecodeTail(b, pos + 1, shift + 7, sum) else Decoded(sum, pos + 1)
  }

  function DecodeInteger(b: seq<byte>, n: nat): (r: IntResult)
    requires n <= 8
    ensures r.Decoded? ==> 0 < r.used <= |b|
  {
    if |b| == 0 then Truncated
    else if PrefixOf(b[0], n) != Mask(n) then Decoded(PrefixOf(b[0], n), 1)
    else DecodeTail(b, 1, 0, Mask(n))
  }

  method ReadInteger(input: seq<byte>, p: nat, numbits: nat) returns (r: IntResult)
    requires p <= |input| && numbits <= 8
    ensures r == DecodeInteger(input[p..], numbits)
  {
    ghost var b := input[p..];
    var mask := Mask(numbits);
    var pos, shift := p, 0;
    if pos == |input| {
      return Truncated;
    }
    var c := PrefixOf(input[pos], numbits);
    pos := pos + 1;
    var output: uint32 := c;
    if c != mask {
      return Decoded(output, pos - p);
    }
    while true
      invariant p < pos <= |input|
      invariant DecodeInteger(b, numbits) == DecodeTail(b, pos - p, shift, output)
      decreases |input| - pos
    {
      if pos == |input| {
        return Truncated;
      }
      c := input[pos];
      if shift >= 32 {
        return Undefined;
      }
      pos := pos + 1;
      output := Accumulate(output, c % 0x80, shift);
      shift := shift + 7;
      if c < 0x80 {
        return Decoded(output, pos - p);
      }
    }
  }

  // ---------------------------------------------------------------- what decoding means

  /** The number a run of seven-bit groups denotes. */
  function SevenBitGroups(b: seq<byte>): nat {
    if |b| == 0 then 0 else b[0] % 0x80 + 0x80 * SevenBitGroups(b[1..])
  }

  /** Adding a low group and then the higher ones is adding them all. */
  lemma AccumulateBoth(acc: uint32, d: nat, g: nat, shift: nat)
    ensures Accumulate(Accumulate(acc, d, shift), g, shift + 7) == Accumulate(acc, d + 0x80 * g, shift)
  {
    hide Pow2;
    var p := Pow2(shift);
    Pow2Add(7, shift);
    Pow2Literals();
    assert Pow2(shift + 7) == 0x80 * p;
    TwoGroups(d, g, p);
    ModSum(acc + d * p, g * (0x80 * p));
  }

  lemma TwoGroups(d: nat, g: nat, p: nat)
    ensures d * p + g * (0x80 * p) == (d + 0x80 * g) * p
  {
  }

  lemma ModSum(a: nat, b: nat)
    ensures (a % TWO_32 + b) % TWO_32 == (a + b) % TWO_32
  {
  }

  lemma {:induction false} TailMeaning(b: seq<byte>, pos: nat, shift: nat, acc: uint32)
    requires pos <= |b| && DecodeTail(b, pos, shift, acc).Decoded?
    ensures var r := DecodeTail(b, pos, shift, acc);
            && r.value == Accumulate(acc, SevenBitGroups(b[pos..r.used]), shift)
            && b[r.used - 1] < 0x80
            && (forall i :: pos <= i < r.used - 1 ==> b[i] >= 0x80)
            && shift + 7 * (r.used - pos - 1) < 32
    decreases |b| - pos
  {
    hide Accumulate;
    var r := DecodeTail(b, pos, shift, acc);
    var d, tail := b[pos] % 0x80, b[pos + 1..r.used];
    assert b[pos..r.used][1..] == tail;
    if b[pos] >= 0x80 {
      TailMeaning(b, pos + 1, shift + 7, Accumulate(acc, d, shift));
      AccumulateBoth(acc, d, SevenBitGroups(tail), shift);
    } else {
      assert SevenBitGroups(tail) == 0;
    }
  }

  /** Decoding reads the prefix and, when that is all ones, adds the groups that follow up to
      and including the first byte without a continuation bit, modulo 2^32. */
  lemma IntegerMeaning(b: seq<byte>, n: nat)
    requires n <= 8 && DecodeInteger(b, n).Decoded?
    ensures var r := DecodeInteger(b, n);
            && r.used <= 6
            && (PrefixOf(b[0], n) < Mask(n) ==> r == Decoded(PrefixOf(b[0], n), 1))
            && (PrefixOf(b[0], n) == Mask(n) ==>
                  && r.used >= 2
                  && r.value == (Mask(n) + SevenBitGroups(b[1..r.used])) % TWO_32
                  && b[r.used - 1] < 0x80
                  && forall i :: 1 <= i < r.used - 1 ==> b[i] >= 0x80)
  {
    if PrefixOf(b[0], n) == Mask(n) {
      TailMeaning(b, 1, 0, Mask(n));
      assert Pow2(0) == 1;
    }
  }

  // ---------------------------------------------------------------- overlong integers

  /** An all-ones prefix, five continuation bytes, and a byte after them. */
  predicate Overlong(b: seq<byte>, n: nat)
    requires n <= 8
  {
    |b| >= 7 && PrefixOf(b[0], n) == Mask(n) && forall i :: 1 <= i <= 5 ==> b[i] >= 0x80
  }

  lemma {:induction false} TailUndefined(b: seq<byte>, pos: nat, k: nat, acc: uint32)
    requires k <= 5
    ensures DecodeTail(b, pos, 7 * k, acc).Undefined? <==>
            |b| > pos + 5 - k && forall i :: pos <= i < pos + 5 - k ==> b[i] >= 0x80
    decreases 5 - k
  {
    hide Accumulate;
    if k < 5 && pos < |b| {
      TailUndefined(b, pos + 1, k + 1, Accumulate(acc, b[pos] % 0x80, 7 * k));
    }
  }

  /** The undefined shift is reached exactly on overlong integers. */
  lemma IntegerUndefined(b: seq<byte>, n: nat)
    requires n <= 8
    ensures DecodeInteger(b, n).Undefined? <==> Overlong(b, n)
  {
    if |b| > 0 && PrefixOf(b[0], n) == Mask(n) {
      TailUndefined(b, 1, 0, Mask(n));
    }
  }

  lemma OverlongExists()
    ensures DecodeInteger([0xff, 0x80, 0x80, 0x80, 0x80, 0x80, 0x00], 7).Undefined?
  {
    Pow2Literals();
    IntegerUndefined([0xff, 0x80, 0x80, 0x80, 0x80, 0x80, 0x00], 7);
  }

  // ---------------------------------------------------------------- self-delimitation

  lemma {:induction false} TailLocal(b: seq<byte>, c: seq<byte>, pos: nat, shift: nat, acc: uint32)
    requires pos <= |b| && DecodeTail(b, pos, shift, acc).Decoded?
    requires |c| >= DecodeTail(b, pos, shift, acc).used
    requires c[..DecodeTail(b, pos, shift, acc).used] == b[..DecodeTail(b, pos, shift, acc).used]
    ensures DecodeTail(c, pos, shift, acc) == DecodeTail(b, pos, shift, acc)
    decreases |b| - pos
  {
    var used := DecodeTail(b, pos, shift, acc).used;
    assert c[pos] == c[..used][pos] == b[..used][pos];
    if b[pos] >= 0x80 {
      TailLocal(b, c, pos + 1, shift + 7, Accumulate(acc, b[pos] % 0x80, shift));
    }
  }

  /** Decoding depends on nothing past the bytes it consumes. */
  lemma IntegerLocal(b: seq<byte>, c: seq<byte>, n: nat)
    requires n <= 8 && DecodeInteger(b, n).Decoded?
    requires |c| >= DecodeInteger(b, n).used
    requires c[..DecodeInteger(b, n).used] == b[..DecodeInteger(b, n).used]
    ensures DecodeInteger(c, n) == DecodeInteger(b, n)
  {
    var used := DecodeInteger(b, n).used;
    assert c[0] == c[..used][0] == b[..used][0];
    if PrefixOf(b[0], n) == Mask(n) {
      TailLocal(b, c, 1, 0, Mask(n));
    }
  }

  lemma {:induction false} TailTruncated(b: seq<byte>, k: nat, pos: nat, shift: nat, acc: uint32)
    requires pos <= |b| && DecodeTail(b, pos, shift, acc).Decoded?
    requires k < DecodeTail(b, pos, shift, acc).used
    ensures DecodeTail(b[..k], pos, shift, acc) == Truncated
    decreases |b| - pos
  {
    if pos < k {
      assert b[..k][pos] == b[pos];
      TailTruncated(b, k, pos + 1, shift + 7, Accumulate(acc, b[pos] % 0x80, shift));
    }
  }

  /** Cutting an integer short, anywhere, is noticed. */
  lemma IntegerTruncated(b: seq<byte>, k: nat, n: nat)
    requires n <= 8 && DecodeInteger(b, n).Decoded? && k < DecodeInteger(b, n).used
    ensures DecodeInteger(b[..k], n) == Truncated
  {
    if k > 0 {
      assert b[..k][0] == b[0];
      TailTruncated(b, k, 1, 0, Mask(n));
    }
  }

  // ---------------------------------------------------------------- round trip

  lemma HighGroups(q: nat, r: nat, p: nat)
    requires q >= 1 && p >= 1
    ensures 0x80 * p <= q * (0x80 * p) <= (r + 0x80 * q) * p
  {
    MulAtLeast(q, 0x80 * p);
    TwoGroups(r, q, p);
    MulAtLeast(r, p);
  }

  lemma ShiftStaysSmall(w: nat, shift: nat)
    requires w >= 0x80 && shift < 32 && w * Pow2(shift) < TWO_32
    ensures shift + 7 < 32 && (w / 0x80) * Pow2(shift + 7) < TWO_32
  {
    var q, r := w / 0x80, w % 0x80;
    Pow2Add(7, shift);
    HighGroups(q, r, Pow2(shift));
    Pow2Literals();
    assert w == r + 0x80 * q;
    if shift + 7 >= 32 {
      Pow2Monotone(32, shift + 7);
    }
  }

  lemma {:induction false} TailRoundTrip(w: nat, rest: seq<byte>, b: seq<byte>, pos: nat, shift: nat, acc: uint32)
    requires pos <= |b| && b[pos..] == Base128(w) + rest
    requires shift < 32 && w * Pow2(shift) < TWO_32
    ensures DecodeTail(b, pos, shift, acc) == Decoded(Accumulate(acc, w, shift), pos + |Base128(w)|)
    decreases w
  {
    hide Accumulate;
    assert b[pos] == b[pos..][0];
    if w >= 0x80 {
      ShiftStaysSmall(w, shift);
      AccumulateBoth(acc, w % 0x80, w / 0x80, shift);
      assert b[pos + 1..] == b[pos..][1..] == Base128(w / 0x80) + rest;
      TailRoundTrip(w / 0x80, rest, b, pos + 1, shift + 7, Accumulate(acc, w % 0x80, shift));
    }
  }

  lemma FromZero(acc: nat, w: nat)
    requires acc + w < TWO_32
    ensures w * Pow2(0) == w && Accumulate(acc, w, 0) == acc + w
  {
    assert Pow2(0) == 1;
  }

  lemma FlagsAndValue(hibits: byte, n: nat, low: nat)
    requires n <= 8 && low <= Mask(n)
    requires PrefixOf(hibits, n) == 0 && hibits + Mask(n) <= 0xff
    ensures PrefixOf(hibits + low, n) == low
  {
    DivModUnique(hibits + low, Pow2(n), hibits / Pow2(n), low);
  }

  /** Every 32-bit value survives, at every prefix width and before any further bytes. */
  lemma IntegerRoundTrip(hibits: byte, n: nat, value: uint32, rest: seq<byte>)
    requires n <= 8 && PrefixOf(hibits, n) == 0 && hibits + Mask(n) <= 0xff
    ensures DecodeInteger(EncodeInteger(hibits, n, value) + rest, n)
         == Decoded(value, |EncodeInteger(hibits, n, value)|)
  {
    hide PrefixOf, Pow2, Accumulate, DecodeTail;
    var b := EncodeInteger(hibits, n, value) + rest;
    var low := if value < Mask(n) then value else Mask(n);
    assert b[0] == hibits + low;
    FlagsAndValue(hibits, n, low);
    if value >= Mask(n) {
      assert b[1..] == Base128(value - Mask(n)) + rest;
      FromZero(Mask(n), value - Mask(n));
      TailRoundTrip(value - Mask(n), rest, b, 1, 0, Mask(n));
    }
  }

  // ---------------------------------------------------------------- length

  lemma Base128Length(w: nat)
    ensures w < 0x80 ==> |Base128(w)| == 1
    ensures 0x80 <= w < 0x4000 ==> |Base128(w)| == 2
    ensures 0x4000 <= w < 0x20_0000 ==> |Base128(w)| == 3
    ensures 0x20_0000 <= w < 0x1000_0000 ==> |Base128(w)| == 4
    ensures 0x1000_0000 <= w < TWO_32 ==> |Base128(w)| == 5
  {
    var w1 := w / 0x80;
    var w2 := w1 / 0x80;
    var w3 := w2 / 0x80;
    assert |Base128(w3)| == if w3 < 0x80 then 1 else 1 + |Base128(w3 / 0x80)|;
    assert |Base128(w2)| == if w2 < 0x80 then 1 else 1 + |Base128(w3)|;
    assert |Base128(w1)| == if w1 < 0x80 then 1 else 1 + |Base128(w2)|;
  }

  /** One byte when the value fits the prefix, else one more per started group of seven bits. */
  lemma IntegerLength(hibits: byte, n: nat, value: uint32)
    requires n <= 8 && hibits + Mask(n) <= 0xff
    ensures var w := value - Mask(n);
            |EncodeInteger(hibits, n, value)| ==
            if w < 0 then 1 else if w < 0x80 then 2 else if w < 0x4000 then 3
            else if w < 0x20_0000 then 4 else if w < 0x1000_0000 then 5 else 6
  {
    if value >= Mask(n) {
      Base128Length(value - Mask(n));
    }
  }

  /** The examples of RFC 7541, section C.1. */
  lemma IntegerExamples()
    ensures 0x00 + Mask(5) <= 0xff && EncodeInteger(0x00, 5, 10) == [0x0a]
    ensures EncodeInteger(0x00, 5, 1337) == [0x1f, 0x9a, 0x0a]
    ensures 0x00 + Mask(8) <= 0xff && EncodeInteger(0x00, 8, 42) == [0x2a]
  {
    Pow2Literals();
    assert Base128(10) == [0x0a];
    assert Base128(1306) == [0x9a] + Base128(10);
  }
}
