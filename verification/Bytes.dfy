/** Bytes, machine words and their bits.

    A bit string is a `seq<bool>` with the most significant bit first, which is the order in
    which both the Huffman code and the integer fields put bits on the wire. */
module Bytes {

  type byte = b: int | 0 <= b < 0x100

  type uint32 = w: int | 0 <= w < 0x1_0000_0000

  type uint64 = w: int | 0 <= w < 0x1_0000_0000_0000_0000

  const TWO_32 := 0x1_0000_0000

  const TWO_64 := 0x1_0000_0000_0000_0000

  datatype Option<+T> = None | Some(value: T)

  // ---------------------------------------------------------------- powers of two

  function Pow2(n: nat): (p: nat)
    ensures p >= 1
  {
    if n == 0 then 1 else 2 * Pow2(n - 1)
  }

  lemma {:induction false} Pow2Add(m: nat, n: nat)
    ensures Pow2(m + n) == Pow2(m) * Pow2(n)
  {
    if m == 0 {
    } else {
      Pow2Add(m - 1, n);
      assert Pow2(m + n) == 2 * Pow2(m - 1 + n);
      assert 2 * (Pow2(m - 1) * Pow2(n)) == (2 * Pow2(m - 1)) * Pow2(n);
    }
  }

  lemma {:induction false} Pow2Monotone(m: nat, n: nat)
    requires m <= n
    ensures Pow2(m) <= Pow2(n)
  {
    if m < n {
      Pow2Monotone(m, n - 1);
    }
  }

  lemma Pow2Literals()
    ensures Pow2(4) == 0x10 && Pow2(5) == 0x20 && Pow2(6) == 0x40 && Pow2(7) == 0x80
    ensures Pow2(8) == 0x100
    ensures Pow2(30) == 0x4000_0000
    ensures Pow2(32) == TWO_32 && Pow2(64) == TWO_64
  {
    var p16, p32 := Pow2(16), Pow2(32);
    assert Pow2(4) == 0x10;
    Pow2Add(4, 4);
    Pow2Add(8, 8);
    Pow2Add(16, 14);
    Pow2Add(16, 16);
    Pow2Add(32, 32);
    assert p16 == 0x1_0000 && p32 == TWO_32;
  }

  // ---------------------------------------------------------------- division facts

  lemma MulAtLeast(m: int, d: nat)
    ensures m >= 1 ==> m * d >= d
    ensures m <= -1 ==> m * d + d <= 0
  {
  }

  lemma QuotientNonNegative(x: nat, d: nat)
    requires d > 0
    ensures x / d >= 0
  {
    MulAtLeast(x / d, d);
  }

  lemma RemainderBelow(x: nat, d: nat)
    requires d > 0
    ensures x % d <= x
  {
    QuotientNonNegative(x, d);
    assert x == (x / d) * d + x % d;
  }

  /** `q` and `r` are the quotient and remainder of `x` by `d` as soon as they recombine. */
  lemma DivModUnique(x: nat, d: nat, q: nat, r: nat)
    requires d > 0 && r < d && x == q * d + r
    ensures x / d == q && x % d == r
  {
    MulAtLeast(q - x / d, d);
    assert (q - x / d) * d == q * d - (x / d) * d;
  }

  lemma MulRegroup(q: nat, d: nat, k: nat, q2: nat)
    ensures q * (d * k) + q2 * d == (q * k + q2) * d
  {
    assert q * (d * k) == (q * k) * d;
  }

  /** Reducing by a multiple of `d` first does not change the remainder by `d`. */
  lemma ModOfMultiple(x: nat, d: nat, k: nat)
    requires d > 0 && d * k > 0
    ensures (x % (d * k)) % d == x % d
  {
    var m := d * k;
    var q, r := x / m, x % m;
    var q2, r2 := r / d, r % d;
    assert x == q * m + (q2 * d + r2);
    MulRegroup(q, d, k, q2);
    DivModUnique(x, d, q * k + q2, r2);
  }

  // ---------------------------------------------------------------- bit strings

  /** The `n` low-order bits of `v`, most significant first. */
  function BitsOf(v: nat, n: nat): (bits: seq<bool>)
    ensures |bits| == n
  {
    if n == 0 then [] else BitsOf(v / 2, n - 1) + [v % 2 == 1]
  }

  /** The number a bit string denotes. */
  function Value(bits: seq<bool>): (v: nat)
    ensures v < Pow2(|bits|)
  {
    if |bits| == 0 then 0
    else 2 * Value(bits[..|bits| - 1]) + if bits[|bits| - 1] then 1 else 0
  }

  function Ones(n: nat): (bits: seq<bool>)
    ensures |bits| == n
  {
    seq(n, i => true)
  }

  lemma {:induction false} ValueOfBits(v: nat, n: nat)
    requires v < Pow2(n)
    ensures Value(BitsOf(v, n)) == v
  {
    if n > 0 {
      ValueOfBits(v / 2, n - 1);
      assert BitsOf(v, n)[..n - 1] == BitsOf(v / 2, n - 1);
    }
  }

  lemma {:induction false} BitsOfValue(bits: seq<bool>)
    ensures BitsOf(Value(bits), |bits|) == bits
  {
    if |bits| > 0 {
      var init := bits[..|bits| - 1];
      BitsOfValue(init);
      assert Value(bits) / 2 == Value(init);
      assert bits == init + [bits[|bits| - 1]];
    }
  }

  lemma ValueInjective(a: seq<bool>, b: seq<bool>)
    requires |a| == |b| && Value(a) == Value(b)
    ensures a == b
  {
    BitsOfValue(a);
    BitsOfValue(b);
  }

  lemma ValueSnoc(bits: seq<bool>, b: bool)
    ensures Value(bits + [b]) == 2 * Value(bits) + if b then 1 else 0
  {
    assert (bits + [b])[..|bits|] == bits;
  }

  lemma MulDouble(v: nat, p: nat, w: nat, c: nat)
    ensures 2 * (v * p + w) + c == v * (2 * p) + (2 * w + c)
  {
  }

  lemma {:induction false} ValueConcat(a: seq<bool>, b: seq<bool>)
    ensures Value(a + b) == Value(a) * Pow2(|b|) + Value(b)
  {
    if |b| == 0 {
      assert a + b == a;
    } else {
      var init, last := b[..|b| - 1], b[|b| - 1];
      ValueConcat(a, init);
      ValueSnoc(a + init, last);
      assert a + b == (a + init) + [last];
      MulDouble(Value(a), Pow2(|init|), Value(init), if last then 1 else 0);
      assert Pow2(|b|) == 2 * Pow2(|init|);
    }
  }

  /** Shifting right by `k` keeps the leading bits; masking keeps the `k` trailing ones. */
  lemma ValueSplit(a: seq<bool>, b: seq<bool>)
    ensures Value(a + b) / Pow2(|b|) == Value(a)
    ensures Value(a + b) % Pow2(|b|) == Value(b)
  {
    ValueConcat(a, b);
    DivModUnique(Value(a + b), Pow2(|b|), Value(a), Value(b));
  }

  /** `x >> n`: drops the low `n` bits. */
  function ShiftDown(x: nat, n: nat): nat {
    QuotientNonNegative(x, Pow2(n));
    x / Pow2(n)
  }

  /** `x & ((1 << n) - 1)`: keeps the low `n` bits. */
  function LowBits(x: nat, n: nat): (r: nat)
    ensures r < Pow2(n) && r <= x
  {
    RemainderBelow(x, Pow2(n));
    x % Pow2(n)
  }

  lemma LeadingBits(a: seq<bool>, b: seq<bool>)
    ensures ShiftDown(Value(a + b), |b|) == Value(a)
  {
    hide Value;
    ValueSplit(a, b);
  }

  /** Whether `a` is a prefix of `b` can be read off the numbers they denote. */
  lemma PrefixByValue(a: seq<bool>, b: seq<bool>)
    requires |a| <= |b|
    ensures a <= b <==> ShiftDown(Value(b), |b| - |a|) == Value(a)
  {
    var head, tail := b[..|a|], b[|a|..];
    assert b == head + tail;
    LeadingBits(head, tail);
    hide Value, ShiftDown;
    if Value(head) == Value(a) {
      ValueInjective(head, a);
    }
  }

  lemma {:induction false} ValueOnes(n: nat)
    ensures Value(Ones(n)) == Pow2(n) - 1
  {
    if n > 0 {
      ValueOnes(n - 1);
      assert Ones(n)[..n - 1] == Ones(n - 1);
    }
  }

  // ---------------------------------------------------------------- bytes as bit strings

  /** The bits of a byte string, eight per byte. */
  function BytesToBits(bytes: seq<byte>): (bits: seq<bool>)
    ensures |bits| == 8 * |bytes|
  {
    if |bytes| == 0 then [] else BytesToBits(bytes[..|bytes| - 1]) + BitsOf(bytes[|bytes| - 1], 8)
  }

  /** Bytes are read as a number in network order: the first one is the highest. */
  lemma NetworkOrder(init: seq<byte>, last: byte)
    ensures Value(BytesToBits(init + [last])) == 0x100 * Value(BytesToBits(init)) + last
  {
    hide Value, BitsOf, Pow2;
    Pow2Literals();
    assert (init + [last])[..|init|] == init;
    ValueOfBits(last, 8);
    ValueConcat(BytesToBits(init), BitsOf(last, 8));
  }

  lemma NoBytes()
    ensures Value(BytesToBits([])) == 0
  {
  }

  /** The byte string with the given bits. */
  function Pack(bits: seq<bool>): (bytes: seq<byte>)
    requires |bits| % 8 == 0
    ensures |bytes| == |bits| / 8
  {
    if |bits| == 0 then []
    else
      var cut := |bits| - 8;
      Pow2Literals();
      Pack(bits[..cut]) + [Value(bits[cut..])]
  }

  lemma {:induction false} PackToBits(bits: seq<bool>)
    requires |bits| % 8 == 0
    ensures BytesToBits(Pack(bits)) == bits
  {
    hide BitsOf, Value, Pow2;
    if |bits| > 0 {
      var cut := |bits| - 8;
      PackToBits(bits[..cut]);
      BitsOfValue(bits[cut..]);
      assert Pack(bits)[..|Pack(bits)| - 1] == Pack(bits[..cut]);
      assert bits == bits[..cut] + bits[cut..];
    }
  }

  lemma PackSnoc(bits: seq<bool>, b: byte)
    requires |bits| % 8 == 0
    ensures Pack(bits + BitsOf(b, 8)) == Pack(bits) + [b]
  {
    var all := bits + BitsOf(b, 8);
    assert b < Pow2(8) by {
      Pow2Literals();
    }
    ValueOfBits(b, 8);
    assert all[..|all| - 8] == bits && all[|all| - 8..] == BitsOf(b, 8);
  }

  lemma PackStep(init: seq<byte>, last: byte)
    requires Pack(BytesToBits(init)) == init
    ensures Pack(BytesToBits(init + [last])) == init + [last]
  {
    hide Pack, BitsOf;
    PackSnoc(BytesToBits(init), last);
    assert (init + [last])[..|init|] == init;
  }

  lemma {:induction false} BitsToPack(bytes: seq<byte>)
    ensures Pack(BytesToBits(bytes)) == bytes
  {
    hide Pack, BytesToBits;
    if |bytes| == 0 {
      PackNothing();
    } else {
      var init, last := bytes[..|bytes| - 1], bytes[|bytes| - 1];
      BitsToPack(init);
      PackStep(init, last);
      assert init + [last] == bytes;
    }
  }

  lemma PackNothing()
    ensures Pack(BytesToBits([])) == []
  {
  }

  // ---------------------------------------------------------------- sequences

  lemma ConcatAssociative<T>(a: seq<T>, b: seq<T>, c: seq<T>)
    ensures (a + b) + c == a + (b + c)
  {
  }

  lemma SliceOfTail<T>(s: seq<T>, p: nat, i: nat, j: nat)
    requires p <= |s| && i <= j <= |s| - p
    ensures s[p..][i..j] == s[p + i..p + j]
  {
  }

  lemma SliceOfSlice<T>(s: seq<T>, a: nat, b: nat, i: nat, j: nat)
    requires a <= b <= |s| && i <= j <= b - a
    ensures s[a..b][i..j] == s[a + i..a + j]
  {
    assert |s[a..b][i..j]| == |s[a + i..a + j]|;
    assert forall k :: 0 <= k < j - i ==> s[a..b][i..j][k] == s[a + (i + k)];
  }

  lemma PrefixSplit<T>(a: seq<T>, b: seq<T>)
    requires a <= b
    ensures b == a + b[|a|..]
  {
  }

  // ---------------------------------------------------------------- text

  /** The bytes of a C string literal. */
  function Ascii(text: string): (bytes: seq<byte>)
    ensures |bytes| == |text|
  {
    seq(|text|, i requires 0 <= i < |text| => text[i] as int % 0x100)
  }

  /** Concatenation of a list of byte strings. */
  function Flatten(parts: seq<seq<byte>>): seq<byte> {
    if |parts| == 0 then [] else Flatten(parts[..|parts| - 1]) + parts[|parts| - 1]
  }
}
