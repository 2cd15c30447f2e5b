/** The static Huffman code of RFC 7541, Appendix B, as the 257-entry table the coder scans.

    The entries are written out in symbol order. Everything else the coder needs is derived
    from one fact, checked entry by entry: listed by rank (shortest code first, codes of one
    length in numerical order) the codewords are consecutive numbers. Left-aligned to 30 bits
    they therefore tile the whole range below 2^30, which is prefix-freeness and completeness
    at once. */
module HuffmanTable {
  import opened Bytes

  datatype HuffmanEntry = HuffmanEntry(bits: uint32, numbits: nat, symbol: nat)

  const END_OF_SYMBOLS := 256

  const ROW_0: seq<HuffmanEntry> := [
    HuffmanEntry(0x00001ff8, 13, 0x00), HuffmanEntry(0x007fffd8, 23, 0x01),
    HuffmanEntry(0x0fffffe2, 28, 0x02), HuffmanEntry(0x0fffffe3, 28, 0x03),
    HuffmanEntry(0x0fffffe4, 28, 0x04), HuffmanEntry(0x0fffffe5, 28, 0x05),
    HuffmanEntry(0x0fffffe6, 28, 0x06), HuffmanEntry(0x0fffffe7, 28, 0x07),
    HuffmanEntry(0x0fffffe8, 28, 0x08), HuffmanEntry(0x00ffffea, 24, 0x09),
    HuffmanEntry(0x3ffffffc, 30, 0x0a), HuffmanEntry(0x0fffffe9, 28, 0x0b),
    HuffmanEntry(0x0fffffea, 28, 0x0c), HuffmanEntry(0x3ffffffd, 30, 0x0d),
    HuffmanEntry(0x0fffffeb, 28, 0x0e), HuffmanEntry(0x0fffffec, 28, 0x0f)
  ]
  const ROW_1: seq<HuffmanEntry> := [
    HuffmanEntry(0x0fffffed, 28, 0x10), HuffmanEntry(0x0fffffee, 28, 0x11),
    HuffmanEntry(0x0fffffef, 28, 0x12), HuffmanEntry(0x0ffffff0, 28, 0x13),
    HuffmanEntry(0x0ffffff1, 28, 0x14), HuffmanEntry(0x0ffffff2, 28, 0x15),
    HuffmanEntry(0x3ffffffe, 30, 0x16), HuffmanEntry(0x0ffffff3, 28, 0x17),
    HuffmanEntry(0x0ffffff4, 28, 0x18), HuffmanEntry(0x0ffffff5, 28, 0x19),
    HuffmanEntry(0x0ffffff6, 28, 0x1a), HuffmanEntry(0x0ffffff7, 28, 0x1b),
    HuffmanEntry(0x0ffffff8, 28, 0x1c), HuffmanEntry(0x0ffffff9, 28, 0x1d),
    HuffmanEntry(0x0ffffffa, 28, 0x1e), HuffmanEntry(0x0ffffffb, 28, 0x1f)
  ]
  const ROW_2: seq<HuffmanEntry> := [
    HuffmanEntry(0x00000014, 6, 0x20), HuffmanEntry(0x000003f8, 10, 0x21),
    HuffmanEntry(0x000003f9, 10, 0x22), HuffmanEntry(0x00000ffa, 12, 0x23),
    HuffmanEntry(0x00001ff9, 13, 0x24), HuffmanEntry(0x00000015, 6, 0x25),
    HuffmanEntry(0x000000f8, 8, 0x26), HuffmanEntry(0x000007fa, 11, 0x27),
    HuffmanEntry(0x000003fa, 10, 0x28), HuffmanEntry(0x000003fb, 10, 0x29),
    HuffmanEntry(0x000000f9, 8, 0x2a), HuffmanEntry(0x000007fb, 11, 0x2b),
    HuffmanEntry(0x000000fa, 8, 0x2c), HuffmanEntry(0x00000016, 6, 0x2d),
    HuffmanEntry(0x00000017, 6, 0x2e), HuffmanEntry(0x00000018, 6, 0x2f)
  ]
  const ROW_3: seq<HuffmanEntry> := [
    HuffmanEntry(0x00000000, 5, 0x30), HuffmanEntry(0x00000001, 5, 0x31),
    HuffmanEntry(0x00000002, 5, 0x32), HuffmanEntry(0x00000019, 6, 0x33),
    HuffmanEntry(0x0000001a, 6, 0x34), HuffmanEntry(0x0000001b, 6, 0x35),
    HuffmanEntry(0x0000001c, 6, 0x36), HuffmanEntry(0x0000001d, 6, 0x37),
    HuffmanEntry(0x0000001e, 6, 0x38), HuffmanEntry(0x0000001f, 6, 0x39),
    HuffmanEntry(0x0000005c, 7, 0x3a), HuffmanEntry(0x000000fb, 8, 0x3b),
    HuffmanEntry(0x00007ffc, 15, 0x3c), HuffmanEntry(0x00000020, 6, 0x3d),
    HuffmanEntry(0x00000ffb, 12, 0x3e), HuffmanEntry(0x000003fc, 10, 0x3f)
  ]
  const ROW_4: seq<HuffmanEntry> := [
    HuffmanEntry(0x00001ffa, 13, 0x40), HuffmanEntry(0x00000021, 6, 0x41),
    HuffmanEntry(0x0000005d, 7, 0x42), HuffmanEntry(0x0000005e, 7, 0x43),
    HuffmanEntry(0x0000005f, 7, 0x44), HuffmanEntry(0x00000060, 7, 0x45),
    HuffmanEntry(0x00000061, 7, 0x46), HuffmanEntry(0x00000062, 7, 0x47),
    HuffmanEntry(0x00000063, 7, 0x48), HuffmanEntry(0x00000064, 7, 0x49),
    HuffmanEntry(0x00000065, 7, 0x4a), HuffmanEntry(0x00000066, 7, 0x4b),
    HuffmanEntry(0x00000067, 7, 0x4c), HuffmanEntry(0x00000068, 7, 0x4d),
    HuffmanEntry(0x00000069, 7, 0x4e), HuffmanEntry(0x0000006a, 7, 0x4f)
  ]
  const ROW_5: seq<HuffmanEntry> := [
    HuffmanEntry(0x0000006b, 7, 0x50), HuffmanEntry(0x0000006c, 7, 0x51),
    HuffmanEntry(0x0000006d, 7, 0x52), HuffmanEntry(0x0000006e, 7, 0x53),
    HuffmanEntry(0x0000006f, 7, 0x54), HuffmanEntry(0x00000070, 7, 0x55),
    HuffmanEntry(0x00000071, 7, 0x56), HuffmanEntry(0x00000072, 7, 0x57),
    HuffmanEntry(0x000000fc, 8, 0x58), HuffmanEntry(0x00000073, 7, 0x59),
    HuffmanEntry(0x000000fd, 8, 0x5a), HuffmanEntry(0x00001ffb, 13, 0x5b),
    HuffmanEntry(0x0007fff0, 19, 0x5c), HuffmanEntry(0x00001ffc, 13, 0x5d),
    HuffmanEntry(0x00003ffc, 14, 0x5e), HuffmanEntry(0x00000022, 6, 0x5f)
  ]
  const ROW_6: seq<HuffmanEntry> := [
    HuffmanEntry(0x00007ffd, 15, 0x60), HuffmanEntry(0x00000003, 5, 0x61),
    HuffmanEntry(0x00000023, 6, 0x62), HuffmanEntry(0x00000004, 5, 0x63),
    HuffmanEntry(0x00000024, 6, 0x64), HuffmanEntry(0x00000005, 5, 0x65),
    HuffmanEntry(0x00000025, 6, 0x66), HuffmanEntry(0x00000026, 6, 0x67),
    HuffmanEntry(0x00000027, 6, 0x68), HuffmanEntry(0x00000006, 5, 0x69),
    HuffmanEntry(0x00000074, 7, 0x6a), HuffmanEntry(0x00000075, 7, 0x6b),
    HuffmanEntry(0x00000028, 6, 0x6c), HuffmanEntry(0x00000029, 6, 0x6d),
    HuffmanEntry(0x0000002a, 6, 0x6e), HuffmanEntry(0x00000007, 5, 0x6f)
  ]
  const ROW_7: seq<HuffmanEntry> := [
    HuffmanEntry(0x0000002b, 6, 0x70), HuffmanEntry(0x00000076, 7, 0x71),
    HuffmanEntry(0x0000002c, 6, 0x72), HuffmanEntry(0x00000008, 5, 0x73),
    HuffmanEntry(0x00000009, 5, 0x74), HuffmanEntry(0x0000002d, 6, 0x75),
    HuffmanEntry(0x00000077, 7, 0x76), HuffmanEntry(0x00000078, 7, 0x77),
    HuffmanEntry(0x00000079, 7, 0x78), HuffmanEntry(0x0000007a, 7, 0x79),
    HuffmanEntry(0x0000007b, 7, 0x7a), HuffmanEntry(0x00007ffe, 15, 0x7b),
    HuffmanEntry(0x000007fc, 11, 0x7c), HuffmanEntry(0x00003ffd, 14, 0x7d),
    HuffmanEntry(0x00001ffd, 13, 0x7e), HuffmanEntry(0x0ffffffc, 28, 0x7f)
  ]
  const ROW_8: seq<HuffmanEntry> := [
    HuffmanEntry(0x000fffe6, 20, 0x80), HuffmanEntry(0x003fffd2, 22, 0x81),
    HuffmanEntry(0x000fffe7, 20, 0x82), HuffmanEntry(0x000fffe8, 20, 0x83),
    HuffmanEntry(0x003fffd3, 22, 0x84), HuffmanEntry(0x003fffd4, 22, 0x85),
    HuffmanEntry(0x003fffd5, 22, 0x86), HuffmanEntry(0x007fffd9, 23, 0x87),
    HuffmanEntry(0x003fffd6, 22, 0x88), HuffmanEntry(0x007fffda, 23, 0x89),
    HuffmanEntry(0x007fffdb, 23, 0x8a), HuffmanEntry(0x007fffdc, 23, 0x8b),
    HuffmanEntry(0x007fffdd, 23, 0x8c), HuffmanEntry(0x007fffde, 23, 0x8d),
    HuffmanEntry(0x00ffffeb, 24, 0x8e), HuffmanEntry(0x007fffdf, 23, 0x8f)
  ]
  const ROW_9: seq<HuffmanEntry> := [
    HuffmanEntry(0x00ffffec, 24, 0x90), HuffmanEntry(0x00ffffed, 24, 0x91),
    HuffmanEntry(0x003fffd7, 22, 0x92), HuffmanEntry(0x007fffe0, 23, 0x93),
    HuffmanEntry(0x00ffffee, 24, 0x94), HuffmanEntry(0x007fffe1, 23, 0x95),
    HuffmanEntry(0x007fffe2, 23, 0x96), HuffmanEntry(0x007fffe3, 23, 0x97),
    HuffmanEntry(0x007fffe4, 23, 0x98), HuffmanEntry(0x001fffdc, 21, 0x99),
    HuffmanEntry(0x003fffd8, 22, 0x9a), HuffmanEntry(0x007fffe5, 23, 0x9b),
    HuffmanEntry(0x003fffd9, 22, 0x9c), HuffmanEntry(0x007fffe6, 23, 0x9d),
    HuffmanEntry(0x007fffe7, 23, 0x9e), HuffmanEntry(0x00ffffef, 24, 0x9f)
  ]
  const ROW_10: seq<HuffmanEntry> := [
    HuffmanEntry(0x003fffda, 22, 0xa0), HuffmanEntry(0x001fffdd, 21, 0xa1),
    HuffmanEntry(0x000fffe9, 20, 0xa2), HuffmanEntry(0x003fffdb, 22, 0xa3),
    HuffmanEntry(0x003fffdc, 22, 0xa4), HuffmanEntry(0x007fffe8, 23, 0xa5),
    HuffmanEntry(0x007fffe9, 23, 0xa6), HuffmanEntry(0x001fffde, 21, 0xa7),
    HuffmanEntry(0x007fffea, 23, 0xa8), HuffmanEntry(0x003fffdd, 22, 0xa9),
    HuffmanEntry(0x003fffde, 22, 0xaa), HuffmanEntry(0x00fffff0, 24, 0xab),
    HuffmanEntry(0x001fffdf, 21, 0xac), HuffmanEntry(0x003fffdf, 22, 0xad),
    HuffmanEntry(0x007fffeb, 23, 0xae), HuffmanEntry(0x007fffec, 23, 0xaf)
  ]
  const ROW_11: seq<HuffmanEntry> := [
    HuffmanEntry(0x001fffe0, 21, 0xb0), HuffmanEntry(0x001fffe1, 21, 0xb1),
    HuffmanEntry(0x003fffe0, 22, 0xb2), HuffmanEntry(0x001fffe2, 21, 0xb3),
    HuffmanEntry(0x007fffed, 23, 0xb4), HuffmanEntry(0x003fffe1, 22, 0xb5),
    HuffmanEntry(0x007fffee, 23, 0xb6), HuffmanEntry(0x007fffef, 23, 0xb7),
    HuffmanEntry(0x000fffea, 20, 0xb8), HuffmanEntry(0x003fffe2, 22, 0xb9),
    HuffmanEntry(0x003fffe3, 22, 0xba), HuffmanEntry(0x003fffe4, 22, 0xbb),
    HuffmanEntry(0x007ffff0, 23, 0xbc), HuffmanEntry(0x003fffe5, 22, 0xbd),
    HuffmanEntry(0x003fffe6, 22, 0xbe), HuffmanEntry(0x007ffff1, 23, 0xbf)
  ]
  const ROW_12: seq<HuffmanEntry> := [
    HuffmanEntry(0x03ffffe0, 26, 0xc0), HuffmanEntry(0x03ffffe1, 26, 0xc1),
    HuffmanEntry(0x000fffeb, 20, 0xc2), HuffmanEntry(0x0007fff1, 19, 0xc3),
    HuffmanEntry(0x003fffe7, 22, 0xc4), HuffmanEntry(0x007ffff2, 23, 0xc5),
    HuffmanEntry(0x003fffe8, 22, 0xc6), HuffmanEntry(0x01ffffec, 25, 0xc7),
    HuffmanEntry(0x03ffffe2, 26, 0xc8), HuffmanEntry(0x03ffffe3, 26, 0xc9),
    HuffmanEntry(0x03ffffe4, 26, 0xca), HuffmanEntry(0x07ffffde, 27, 0xcb),
    HuffmanEntry(0x07ffffdf, 27, 0xcc), HuffmanEntry(0x03ffffe5, 26, 0xcd),
    HuffmanEntry(0x00fffff1, 24, 0xce), HuffmanEntry(0x01ffffed, 25, 0xcf)
  ]
  const ROW_13: seq<HuffmanEntry> := [
    HuffmanEntry(0x0007fff2, 19, 0xd0), HuffmanEntry(0x001fffe3, 21, 0xd1),
    HuffmanEntry(0x03ffffe6, 26, 0xd2), HuffmanEntry(0x07ffffe0, 27, 0xd3),
    HuffmanEntry(0x07ffffe1, 27, 0xd4), HuffmanEntry(0x03ffffe7, 26, 0xd5),
    HuffmanEntry(0x07ffffe2, 27, 0xd6), HuffmanEntry(0x00fffff2, 24, 0xd7),
    HuffmanEntry(0x001fffe4, 21, 0xd8), HuffmanEntry(0x001fffe5, 21, 0xd9),
    HuffmanEntry(0x03ffffe8, 26, 0xda), HuffmanEntry(0x03ffffe9, 26, 0xdb),
    HuffmanEntry(0x0ffffffd, 28, 0xdc), HuffmanEntry(0x07ffffe3, 27, 0xdd),
    HuffmanEntry(0x07ffffe4, 27, 0xde), HuffmanEntry(0x07ffffe5, 27, 0xdf)
  ]
  const ROW_14: seq<HuffmanEntry> := [
    HuffmanEntry(0x000fffec, 20, 0xe0), HuffmanEntry(0x00fffff3, 24, 0xe1),
    HuffmanEntry(0x000fffed, 20, 0xe2), HuffmanEntry(0x001fffe6, 21, 0xe3),
    HuffmanEntry(0x003fffe9, 22, 0xe4), HuffmanEntry(0x001fffe7, 21, 0xe5),
    HuffmanEntry(0x001fffe8, 21, 0xe6), HuffmanEntry(0x007ffff3, 23, 0xe7),
    HuffmanEntry(0x003fffea, 22, 0xe8), HuffmanEntry(0x003fffeb, 22, 0xe9),
    HuffmanEntry(0x01ffffee, 25, 0xea), HuffmanEntry(0x01ffffef, 25, 0xeb),
    HuffmanEntry(0x00fffff4, 24, 0xec), HuffmanEntry(0x00fffff5, 24, 0xed),
    HuffmanEntry(0x03ffffea, 26, 0xee), HuffmanEntry(0x007ffff4, 23, 0xef)
  ]
  const ROW_15: seq<HuffmanEntry> := [
    HuffmanEntry(0x03ffffeb, 26, 0xf0), HuffmanEntry(0x07ffffe6, 27, 0xf1),
    HuffmanEntry(0x03ffffec, 26, 0xf2), HuffmanEntry(0x03ffffed, 26, 0xf3),
    HuffmanEntry(0x07ffffe7, 27, 0xf4), HuffmanEntry(0x07ffffe8, 27, 0xf5),
    HuffmanEntry(0x07ffffe9, 27, 0xf6), HuffmanEntry(0x07ffffea, 27, 0xf7),
    HuffmanEntry(0x07ffffeb, 27, 0xf8), HuffmanEntry(0x0ffffffe, 28, 0xf9),
    HuffmanEntry(0x07ffffec, 27, 0xfa), HuffmanEntry(0x07ffffed, 27, 0xfb),
    HuffmanEntry(0x07ffffee, 27, 0xfc), HuffmanEntry(0x07ffffef, 27, 0xfd),
    HuffmanEntry(0x07fffff0, 27, 0xfe), HuffmanEntry(0x03ffffee, 26, 0xff)
  ]
  const ROW_16: seq<HuffmanEntry> := [
    HuffmanEntry(0x3fffffff, 30, 0x100)
  ]

  const ROWS: seq<seq<HuffmanEntry>> := [
    ROW_0, ROW_1, ROW_2, ROW_3, ROW_4, ROW_5, ROW_6, ROW_7, ROW_8,
    ROW_9, ROW_10, ROW_11, ROW_12, ROW_13, ROW_14, ROW_15, ROW_16
  ]

  /** The table entry for a symbol. */
  function Entry(s: nat): HuffmanEntry
    requires s <= 256
  {
    ROWS[s / 16][s % 16]
  }

  /** The length of the codeword of rank `k`. */
  function LengthAt(k: nat): nat {
    if k < 10 then 5
    else if k < 36 then 6
    else if k < 68 then 7
    else if k < 74 then 8
    else if k < 79 then 10
    else if k < 82 then 11
    else if k < 84 then 12
    else if k < 90 then 13
    else if k < 92 then 14
    else if k < 95 then 15
    else if k < 98 then 19
    else if k < 106 then 20
    else if k < 119 then 21
    else if k < 145 then 22
    else if k < 174 then 23
    else if k < 186 then 24
    else if k < 190 then 25
    else if k < 205 then 26
    else if k < 224 then 27
    else if k < 253 then 28
    else 30
  }

  /** What to subtract from a rank to get the codeword, for codewords of length `n`. */
  function Offset(n: nat): int {
    match n
    case 5 => 0
    case 6 => -10
    case 7 => -56
    case 8 => -180
    case 10 => -942
    case 11 => -1963
    case 12 => -4008
    case 13 => -8100
    case 14 => -16290
    case 15 => -32672
    case 19 => -524177
    case 20 => -1048452
    case 21 => -2097010
    case 22 => -4194139
    case 23 => -8388423
    case 24 => -16777020
    case 25 => -33554226
    case 26 => -67108642
    case 27 => -134217489
    case 28 => -268435202
    case 30 => -1073741567
    case _ => 0
  }

  /** How many 30-bit words start with a given codeword of length `n`. */
  function Span(n: nat): nat
    requires n <= 30
  {
    match n
    case 0 => 0x40000000
    case 1 => 0x20000000
    case 2 => 0x10000000
    case 3 => 0x8000000
    case 4 => 0x4000000
    case 5 => 0x2000000
    case 6 => 0x1000000
    case 7 => 0x800000
    case 8 => 0x400000
    case 9 => 0x200000
    case 10 => 0x100000
    case 11 => 0x80000
    case 12 => 0x40000
    case 13 => 0x20000
    case 14 => 0x10000
    case 15 => 0x8000
    case 16 => 0x4000
    case 17 => 0x2000
    case 18 => 0x1000
    case 19 => 0x800
    case 20 => 0x400
    case 21 => 0x200
    case 22 => 0x100
    case 23 => 0x80
    case 24 => 0x40
    case 25 => 0x20
    case 26 => 0x10
    case 27 => 0x8
    case 28 => 0x4
    case 29 => 0x2
    case _ => 1
  }

  /** Entry `s` is the codeword of rank `k`. */
  predicate CodeAt(s: nat, k: nat) {
    s <= 256 &&
    var e, n := Entry(s), LengthAt(k);
    e.symbol == s && e.numbits == n && e.bits == k - Offset(n)
  }

  // ---------------------------------------------------------------- the table, rank by rank

  /** The symbols by rank. */
  const RANKS_0: seq<nat> := [48, 49, 50, 97, 99, 101, 105, 111, 115, 116, 32, 37, 45, 46, 47, 51]
  const RANKS_1: seq<nat> := [52, 53, 54, 55, 56, 57, 61, 65, 95, 98, 100, 102, 103, 104, 108, 109]
  const RANKS_2: seq<nat> := [110, 112, 114, 117, 58, 66, 67, 68, 69, 70, 71, 72, 73, 74, 75, 76]
  const RANKS_3: seq<nat> := [77, 78, 79, 80, 81, 82, 83, 84, 85, 86, 87, 89, 106, 107, 113, 118]
  const RANKS_4: seq<nat> := [119, 120, 121, 122, 38, 42, 44, 59, 88, 90, 33, 34, 40, 41, 63, 39]
  const RANKS_5: seq<nat> := [43, 124, 35, 62, 0, 36, 64, 91, 93, 126, 94, 125, 60, 96, 123, 92]
  const RANKS_6: seq<nat> := [195, 208, 128, 130, 131, 162, 184, 194, 224, 226, 153, 161, 167, 172, 176, 177]
  const RANKS_7: seq<nat> := [179, 209, 216, 217, 227, 229, 230, 129, 132, 133, 134, 136, 146, 154, 156, 160]
  const RANKS_8: seq<nat> := [163, 164, 169, 170, 173, 178, 181, 185, 186, 187, 189, 190, 196, 198, 228, 232]
  const RANKS_9: seq<nat> := [233, 1, 135, 137, 138, 139, 140, 141, 143, 147, 149, 150, 151, 152, 155, 157]
  const RANKS_10: seq<nat> := [158, 165, 166, 168, 174, 175, 180, 182, 183, 188, 191, 197, 231, 239, 9, 142]
  const RANKS_11: seq<nat> := [144, 145, 148, 159, 171, 206, 215, 225, 236, 237, 199, 207, 234, 235, 192, 193]
  const RANKS_12: seq<nat> := [200, 201, 202, 205, 210, 213, 218, 219, 238, 240, 242, 243, 255, 203, 204, 211]
  const RANKS_13: seq<nat> := [212, 214, 221, 222, 223, 241, 244, 245, 246, 247, 248, 250, 251, 252, 253, 254]
  const RANKS_14: seq<nat> := [2, 3, 4, 5, 6, 7, 8, 11, 12, 14, 15, 16, 17, 18, 19, 20]
  const RANKS_15: seq<nat> := [21, 23, 24, 25, 26, 27, 28, 29, 30, 31, 127, 220, 249, 10, 13, 22]
  const RANKS_16: seq<nat> := [256]

  const RANKED: seq<seq<nat>> := [
    RANKS_0, RANKS_1, RANKS_2, RANKS_3, RANKS_4, RANKS_5, RANKS_6, RANKS_7, RANKS_8,
    RANKS_9, RANKS_10, RANKS_11, RANKS_12, RANKS_13, RANKS_14, RANKS_15, RANKS_16
  ]

  function SymbolAt(k: nat): nat
    requires k <= 256
  {
    RANKED[k / 16][k % 16]
  }

  lemma RanksFrom0(k: nat)
    requires 0 <= k < 8
    ensures CodeAt(SymbolAt(k), k)
  {
    match k
    case 0 => assert SymbolAt(0) == 48; case 1 => assert SymbolAt(1) == 49;
    case 2 => assert SymbolAt(2) == 50; case 3 => assert SymbolAt(3) == 97;
    case 4 => assert SymbolAt(4) == 99; case 5 => assert SymbolAt(5) == 101;
    case 6 => assert SymbolAt(6) == 105; case _ => assert SymbolAt(7) == 111;
  }

  lemma RanksFrom8(k: nat)
    requires 8 <= k < 16
    ensures CodeAt(SymbolAt(k), k)
  {
    match k
    case 8 => assert SymbolAt(8) == 115; case 9 => assert SymbolAt(9) == 116;
    case 10 => assert SymbolAt(10) == 32; case 11 => assert SymbolAt(11) == 37;
    case 12 => assert SymbolAt(12) == 45; case 13 => assert SymbolAt(13) == 46;
    case 14 => assert SymbolAt(14) == 47; case _ => assert SymbolAt(15) == 51;
  }

  lemma RanksFrom16(k: nat)
    requires 16 <= k < 24
    ensures CodeAt(SymbolAt(k), k)
  {
    match k
    case 16 => assert SymbolAt(16) == 52; case 17 => assert SymbolAt(17) == 53;
    case 18 => assert SymbolAt(18) == 54; case 19 => assert SymbolAt(19) == 55;
    case 20 => assert SymbolAt(20) == 56; case 21 => assert SymbolAt(21) == 57;
    case 22 => assert SymbolAt(22) == 61; case _ => assert SymbolAt(23) == 65;
  }

  lemma RanksFrom24(k: nat)
    requires 24 <= k < 32
    ensures CodeAt(SymbolAt(k), k)
  {
    match k
    case 24 => assert SymbolAt(24) == 95; case 25 => assert SymbolAt(25) == 98;
    case 26 => assert SymbolAt(26) == 100; case 27 => assert SymbolAt(27) == 102;
    case 28 => assert SymbolAt(28) == 103; case 29 => assert SymbolAt(29) == 104;
    case 30 => assert SymbolAt(30) == 108; case _ => assert SymbolAt(31) == 109;
  }

  lemma RanksFrom32(k: nat)
    requires 32 <= k < 40
    ensures CodeAt(SymbolAt(k), k)
  {
    match k
    case 32 => assert SymbolAt(32) == 110; case 33 => assert SymbolAt(33) == 112;
    case 34 => assert SymbolAt(34) == 114; case 35 => assert SymbolAt(35) == 117;
    case 36 => assert SymbolAt(36) == 58; case 37 => assert SymbolAt(37) == 66;
    case 38 => assert SymbolAt(38) == 67; case _ => assert SymbolAt(39) == 68;
  }

  lemma RanksFrom40(k: nat)
    requires 40 <= k < 48
    ensures CodeAt(SymbolAt(k), k)
  {
    match k
    case 40 => assert SymbolAt(40) == 69; case 41 => assert SymbolAt(41) == 70;
    case 42 => assert SymbolAt(42) == 71; case 43 => assert SymbolAt(43) == 72;
    case 44 => assert SymbolAt(44) == 73; case 45 => assert SymbolAt(45) == 74;
    case 46 => assert SymbolAt(46) == 75; case _ => assert SymbolAt(47) == 76;
  }

  lemma RanksFrom48(k: nat)
    requires 48 <= k < 56
    ensures CodeAt(SymbolAt(k), k)
  {
    match k
    case 48 => assert SymbolAt(48) == 77; case 49 => assert SymbolAt(49) == 78;
    case 50 => assert SymbolAt(50) == 79; case 51 => assert SymbolAt(51) == 80;
    case 52 => assert SymbolAt(52) == 81; case 53 => assert SymbolAt(53) == 82;
    case 54 => assert SymbolAt(54) == 83; case _ => assert SymbolAt(55) == 84;
  }

  lemma RanksFrom56(k: nat)
    requires 56 <= k < 64
    ensures CodeAt(SymbolAt(k), k)
  {
    match k
    case 56 => assert SymbolAt(56) == 85; case 57 => assert SymbolAt(57) == 86;
    case 58 => assert SymbolAt(58) == 87; case 59 => assert SymbolAt(59) == 89;
    case 60 => assert SymbolAt(60) == 106; case 61 => assert SymbolAt(61) == 107;
    case 62 => assert SymbolAt(62) == 113; case _ => assert SymbolAt(63) == 118;
  }

  lemma RanksFrom64(k: nat)
    requires 64 <= k < 72
    ensures CodeAt(SymbolAt(k), k)
  {
    match k
    case 64 => assert SymbolAt(64) == 119; case 65 => assert SymbolAt(65) == 120;
    case 66 => assert SymbolAt(66) == 121; case 67 => assert SymbolAt(67) == 122;
    case 68 => assert SymbolAt(68) == 38; case 69 => assert SymbolAt(69) == 42;
    case 70 => assert SymbolAt(70) == 44; case _ => assert SymbolAt(71) == 59;
  }

  lemma RanksFrom72(k: nat)
    requires 72 <= k < 80
    ensures CodeAt(SymbolAt(k), k)
  {
    match k
    case 72 => assert SymbolAt(72) == 88; case 73 => assert SymbolAt(73) == 90;
    case 74 => assert SymbolAt(74) == 33; case 75 => assert SymbolAt(75) == 34;
    case 76 => assert SymbolAt(76) == 40; case 77 => assert SymbolAt(77) == 41;
    case 78 => assert SymbolAt(78) == 63; case _ => assert SymbolAt(79) == 39;
  }

  lemma RanksFrom80(k: nat)
    requires 80 <= k < 88
    ensures CodeAt(SymbolAt(k), k)
  {
    match k
    case 80 => assert SymbolAt(80) == 43; case 81 => assert SymbolAt(81) == 124;
    case 82 => assert SymbolAt(82) == 35; case 83 => assert SymbolAt(83) == 62;
    case 84 => assert SymbolAt(84) == 0; case 85 => assert SymbolAt(85) == 36;
    case 86 => assert SymbolAt(86) == 64; case _ => assert SymbolAt(87) == 91;
  }

  lemma RanksFrom88(k: nat)
    requires 88 <= k < 96
    ensures CodeAt(SymbolAt(k), k)
  {
    match k
    case 88 => assert SymbolAt(88) == 93; case 89 => assert SymbolAt(89) == 126;
    case 90 => assert SymbolAt(90) == 94; case 91 => assert SymbolAt(91) == 125;
    case 92 => assert SymbolAt(92) == 60; case 93 => assert SymbolAt(93) == 96;
    case 94 => assert SymbolAt(94) == 123; case _ => assert SymbolAt(95) == 92;
  }

  lemma RanksFrom96(k: nat)
    requires 96 <= k < 104
    ensures CodeAt(SymbolAt(k), k)
  {
    match k
    case 96 => assert SymbolAt(96) == 195; case 97 => assert SymbolAt(97) == 208;
    case 98 => assert SymbolAt(98) == 128; case 99 => assert SymbolAt(99) == 130;
    case 100 => assert SymbolAt(100) == 131; case 101 => assert SymbolAt(101) == 162;
    case 102 => assert SymbolAt(102) == 184; case _ => assert SymbolAt(103) == 194;
  }

  lemma RanksFrom104(k: nat)
    requires 104 <= k < 112
    ensures CodeAt(SymbolAt(k), k)
  {
    match k
    case 104 => assert SymbolAt(104) == 224; case 105 => assert SymbolAt(105) == 226;
    case 106 => assert SymbolAt(106) == 153; case 107 => assert SymbolAt(107) == 161;
    case 108 => assert SymbolAt(108) == 167; case 109 => assert SymbolAt(109) == 172;
    case 110 => assert SymbolAt(110) == 176; case _ => assert SymbolAt(111) == 177;
  }

  lemma RanksFrom112(k: nat)
    requires 112 <= k < 120
    ensures CodeAt(SymbolAt(k), k)
  {
    match k
    case 112 => assert SymbolAt(112) == 179; case 113 => assert SymbolAt(113) == 209;
    case 114 => assert SymbolAt(114) == 216; case 115 => assert SymbolAt(115) == 217;
    case 116 => assert SymbolAt(116) == 227; case 117 => assert SymbolAt(117) == 229;
    case 118 => assert SymbolAt(118) == 230; case _ => assert SymbolAt(119) == 129;
  }

  lemma RanksFrom120(k: nat)
    requires 120 <= k < 128
    ensures CodeAt(SymbolAt(k), k)
  {
    match k
    case 120 => assert SymbolAt(120) == 132; case 121 => assert SymbolAt(121) == 133;
    case 122 => assert SymbolAt(122) == 134; case 123 => assert SymbolAt(123) == 136;
    case 124 => assert SymbolAt(124) == 146; case 125 => assert SymbolAt(125) == 154;
    case 126 => assert SymbolAt(126) == 156; case _ => assert SymbolAt(127) == 160;
  }

  lemma RanksFrom128(k: nat)
    requires 128 <= k < 136
    ensures CodeAt(SymbolAt(k), k)
  {
    match k
    case 128 => assert SymbolAt(128) == 163; case 129 => assert SymbolAt(129) == 164;
    case 130 => assert SymbolAt(130) == 169; case 131 => assert SymbolAt(131) == 170;
    case 132 => assert SymbolAt(132) == 173; case 133 => assert SymbolAt(133) == 178;
    case 134 => assert SymbolAt(134) == 181; case _ => assert SymbolAt(135) == 185;
  }

  lemma RanksFrom136(k: nat)
    requires 136 <= k < 144
    ensures CodeAt(SymbolAt(k), k)
  {
    match k
    case 136 => assert SymbolAt(136) == 186; case 137 => assert SymbolAt(137) == 187;
    case 138 => assert SymbolAt(138) == 189; case 139 => assert SymbolAt(139) == 190;
    case 140 => assert SymbolAt(140) == 196; case 141 => assert SymbolAt(141) == 198;
    case 142 => assert SymbolAt(142) == 228; case _ => assert SymbolAt(143) == 232;
  }

  lemma RanksFrom144(k: nat)
    requires 144 <= k < 152
    ensures CodeAt(SymbolAt(k), k)
  {
    match k
    case 144 => assert SymbolAt(144) == 233; case 145 => assert SymbolAt(145) == 1;
    case 146 => assert SymbolAt(146) == 135; case 147 => assert SymbolAt(147) == 137;
    case 148 => assert SymbolAt(148) == 138; case 149 => assert SymbolAt(149) == 139;
    case 150 => assert SymbolAt(150) == 140; case _ => assert SymbolAt(151) == 141;
  }

  lemma RanksFrom152(k: nat)
    requires 152 <= k < 160
    ensures CodeAt(SymbolAt(k), k)
  {
    match k
    case 152 => assert SymbolAt(152) == 143; case 153 => assert SymbolAt(153) == 147;
    case 154 => assert SymbolAt(154) == 149; case 155 => assert SymbolAt(155) == 150;
    case 156 => assert SymbolAt(156) == 151; case 157 => assert SymbolAt(157) == 152;
    case 158 => assert SymbolAt(158) == 155; case _ => assert SymbolAt(159) == 157;
  }

  lemma RanksFrom160(k: nat)
    requires 160 <= k < 168
    ensures CodeAt(SymbolAt(k), k)
  {
    match k
    case 160 => assert SymbolAt(160) == 158; case 161 => assert SymbolAt(161) == 165;
    case 162 => assert SymbolAt(162) == 166; case 163 => assert SymbolAt(163) == 168;
    case 164 => assert SymbolAt(164) == 174; case 165 => assert SymbolAt(165) == 175;
    case 166 => assert SymbolAt(166) == 180; case _ => assert SymbolAt(167) == 182;
  }

  lemma RanksFrom168(k: nat)
    requires 168 <= k < 176
    ensures CodeAt(SymbolAt(k), k)
  {
    match k
    case 168 => assert SymbolAt(168) == 183; case 169 => assert SymbolAt(169) == 188;
    case 170 => assert SymbolAt(170) == 191; case 171 => assert SymbolAt(171) == 197;
    case 172 => assert SymbolAt(172) == 231; case 173 => assert SymbolAt(173) == 239;
    case 174 => assert SymbolAt(174) == 9; case _ => assert SymbolAt(175) == 142;
  }

  lemma RanksFrom176(k: nat)
    requires 176 <= k < 184
    ensures CodeAt(SymbolAt(k), k)
  {
    match k
    case 176 => assert SymbolAt(176) == 144; case 177 => assert SymbolAt(177) == 145;
    case 178 => assert SymbolAt(178) == 148; case 179 => assert SymbolAt(179) == 159;
    case 180 => assert SymbolAt(180) == 171; case 181 => assert SymbolAt(181) == 206;
    case 182 => assert SymbolAt(182) == 215; case _ => assert SymbolAt(183) == 225;
  }

  lemma RanksFrom184(k: nat)
    requires 184 <= k < 192
    ensures CodeAt(SymbolAt(k), k)
  {
    match k
    case 184 => assert SymbolAt(184) == 236; case 185 => assert SymbolAt(185) == 237;
    case 186 => assert SymbolAt(186) == 199; case 187 => assert SymbolAt(187) == 207;
    case 188 => assert SymbolAt(188) == 234; case 189 => assert SymbolAt(189) == 235;
    case 190 => assert SymbolAt(190) == 192; case _ => assert SymbolAt(191) == 193;
  }

  lemma RanksFrom192(k: nat)
    requires 192 <= k < 200
    ensures CodeAt(SymbolAt(k), k)
  {
    match k
    case 192 => assert SymbolAt(192) == 200; case 193 => assert SymbolAt(193) == 201;
    case 194 => assert SymbolAt(194) == 202; case 195 => assert SymbolAt(195) == 205;
    case 196 => assert SymbolAt(196) == 210; case 197 => assert SymbolAt(197) == 213;
    case 198 => assert SymbolAt(198) == 218; case _ => assert SymbolAt(199) == 219;
  }

  lemma RanksFrom200(k: nat)
    requires 200 <= k < 208
    ensures CodeAt(SymbolAt(k), k)
  {
    match k
    case 200 => assert SymbolAt(200) == 238; case 201 => assert SymbolAt(201) == 240;
    case 202 => assert SymbolAt(202) == 242; case 203 => assert SymbolAt(203) == 243;
    case 204 => assert SymbolAt(204) == 255; case 205 => assert SymbolAt(205) == 203;
    case 206 => assert SymbolAt(206) == 204; case _ => assert SymbolAt(207) == 211;
  }

  lemma RanksFrom208(k: nat)
    requires 208 <= k < 216
    ensures CodeAt(SymbolAt(k), k)
  {
    match k
    case 208 => assert SymbolAt(208) == 212; case 209 => assert SymbolAt(209) == 214;
    case 210 => assert SymbolAt(210) == 221; case 211 => assert SymbolAt(211) == 222;
    case 212 => assert SymbolAt(212) == 223; case 213 => assert SymbolAt(213) == 241;
    case 214 => assert SymbolAt(214) == 244; case _ => assert SymbolAt(215) == 245;
  }

  lemma RanksFrom216(k: nat)
    requires 216 <= k < 224
    ensures CodeAt(SymbolAt(k), k)
  {
    match k
    case 216 => assert SymbolAt(216) == 246; case 217 => assert SymbolAt(217) == 247;
    case 218 => assert SymbolAt(218) == 248; case 219 => assert SymbolAt(219) == 250;
    case 220 => assert SymbolAt(220) == 251; case 221 => assert SymbolAt(221) == 252;
    case 222 => assert SymbolAt(222) == 253; case _ => assert SymbolAt(223) == 254;
  }

  lemma RanksFrom224(k: nat)
    requires 224 <= k < 232
    ensures CodeAt(SymbolAt(k), k)
  {
    match k
    case 224 => assert SymbolAt(224) == 2; case 225 => assert SymbolAt(225) == 3;
    case 226 => assert SymbolAt(226) == 4; case 227 => assert SymbolAt(227) == 5;
    case 228 => assert SymbolAt(228) == 6; case 229 => assert SymbolAt(229) == 7;
    case 230 => assert SymbolAt(230) == 8; case _ => assert SymbolAt(231) == 11;
  }

  lemma RanksFrom232(k: nat)
    requires 232 <= k < 240
    ensures CodeAt(SymbolAt(k), k)
  {
    match k
    case 232 => assert SymbolAt(232) == 12; case 233 => assert SymbolAt(233) == 14;
    case 234 => assert SymbolAt(234) == 15; case 235 => assert SymbolAt(235) == 16;
    case 236 => assert SymbolAt(236) == 17; case 237 => assert SymbolAt(237) == 18;
    case 238 => assert SymbolAt(238) == 19; case _ => assert SymbolAt(239) == 20;
  }

  lemma RanksFrom240(k: nat)
    requires 240 <= k < 248
    ensures CodeAt(SymbolAt(k), k)
  {
    match k
    case 240 => assert SymbolAt(240) == 21; case 241 => assert SymbolAt(241) == 23;
    case 242 => assert SymbolAt(242) == 24; case 243 => assert SymbolAt(243) == 25;
    case 244 => assert SymbolAt(244) == 26; case 245 => assert SymbolAt(245) == 27;
    case 246 => assert SymbolAt(246) == 28; case _ => assert SymbolAt(247) == 29;
  }

  lemma RanksFrom248(k: nat)
    requires 248 <= k < 256
    ensures CodeAt(SymbolAt(k), k)
  {
    match k
    case 248 => assert SymbolAt(248) == 30; case 249 => assert SymbolAt(249) == 31;
    case 250 => assert SymbolAt(250) == 127; case 251 => assert SymbolAt(251) == 220;
    case 252 => assert SymbolAt(252) == 249; case 253 => assert SymbolAt(253) == 10;
    case 254 => assert SymbolAt(254) == 13; case _ => assert SymbolAt(255) == 22;
  }

  lemma SymbolOfRank(k: nat) returns (s: nat)
    requires k <= 256
    ensures s == SymbolAt(k) && CodeAt(s, k)
  {
    s := SymbolAt(k);
    hide SymbolAt, CodeAt;
    match k / 8
    case 0 => RanksFrom0(k);
    case 1 => RanksFrom8(k);
    case 2 => RanksFrom16(k);
    case 3 => RanksFrom24(k);
    case 4 => RanksFrom32(k);
    case 5 => RanksFrom40(k);
    case 6 => RanksFrom48(k);
    case 7 => RanksFrom56(k);
    case 8 => RanksFrom64(k);
    case 9 => RanksFrom72(k);
    case 10 => RanksFrom80(k);
    case 11 => RanksFrom88(k);
    case 12 => RanksFrom96(k);
    case 13 => RanksFrom104(k);
    case 14 => RanksFrom112(k);
    case 15 => RanksFrom120(k);
    case 16 => RanksFrom128(k);
    case 17 => RanksFrom136(k);
    case 18 => RanksFrom144(k);
    case 19 => RanksFrom152(k);
    case 20 => RanksFrom160(k);
    case 21 => RanksFrom168(k);
    case 22 => RanksFrom176(k);
    case 23 => RanksFrom184(k);
    case 24 => RanksFrom192(k);
    case 25 => RanksFrom200(k);
    case 26 => RanksFrom208(k);
    case 27 => RanksFrom216(k);
    case 28 => RanksFrom224(k);
    case 29 => RanksFrom232(k);
    case 30 => RanksFrom240(k);
    case 31 => RanksFrom248(k);
    case _ => LastRank();
  }

  lemma LastRank()
    ensures CodeAt(SymbolAt(256), 256)
  {
  }

  /** Both words of an entry determine its rank. */
  lemma RankUnique(s: nat, j: nat, k: nat)
    requires CodeAt(s, j) && CodeAt(s, k)
    ensures j == k
  {
  }

  // ---------------------------------------------------------------- every symbol has a rank

  ghost function Below(n: nat): (r: set<nat>)
    ensures |r| == n
    ensures forall i: nat :: i in r <==> i < n
  {
    if n == 0 then {} else Below(n - 1) + {n - 1}
  }

  ghost function Elements(xs: seq<nat>): (r: set<nat>)
    requires forall i, j :: 0 <= i < j < |xs| ==> xs[i] != xs[j]
    ensures |r| == |xs|
    ensures forall x :: x in r <==> x in xs
  {
    if |xs| == 0 then {}
    else
      var init, last := xs[..|xs| - 1], xs[|xs| - 1];
      assert xs == init + [last];
      Elements(init) + {last}
  }

  /** Pigeonhole: `n` distinct numbers below `n` are all of them. */
  lemma Pigeonhole(xs: seq<nat>, v: nat)
    requires forall i :: 0 <= i < |xs| ==> xs[i] < |xs|
    requires forall i, j :: 0 <= i < j < |xs| ==> xs[i] != xs[j]
    requires v < |xs|
    ensures v in xs
  {
    var all, hit := Below(|xs|), Elements(xs);
    assert hit <= all && hit * all == hit;
    assert |all - hit| == 0;
    assert v in all && v !in all - hit;
  }

  lemma {:induction false} RankedSymbols(n: nat) returns (xs: seq<nat>)
    requires n <= 257
    ensures |xs| == n
    ensures forall k :: 0 <= k < n ==> CodeAt(xs[k], k)
  {
    xs := [];
    if n > 0 {
      var init := RankedSymbols(n - 1);
      var s := SymbolOfRank(n - 1);
      xs := init + [s];
    }
  }

  /** The symbols listed by rank, with the position of `s` in that list. */
  lemma Locate(xs: seq<nat>, s: nat) returns (k: nat)
    requires |xs| == 257 && forall k :: 0 <= k < 257 ==> CodeAt(xs[k], k)
    requires s <= 256
    ensures k <= 256 && xs[k] == s
  {
    forall i, j | 0 <= i < j < |xs|
      ensures xs[i] != xs[j]
    {
      if xs[i] == xs[j] {
        RankUnique(xs[i], i, j);
      }
    }
    Pigeonhole(xs, s);
    k :| 0 <= k < 257 && xs[k] == s;
  }

  lemma RankOfSymbol(s: nat) returns (k: nat)
    requires s <= 256
    ensures k <= 256 && CodeAt(s, k)
  {
    var xs := RankedSymbols(257);
    k := Locate(xs, s);
  }

  /** No two symbols share a codeword. */
  lemma SymbolUnique(s: nat, t: nat, k: nat)
    requires k <= 256 && CodeAt(s, k) && CodeAt(t, k)
    ensures s == t
  {
    var xs := RankedSymbols(257);
    var i := Locate(xs, s);
    var j := Locate(xs, t);
    RankUnique(s, i, k);
    RankUnique(t, j, k);
  }

  // ---------------------------------------------------------------- the tiling

  /** The first 30-bit word that starts with the codeword of rank `k`. */
  function Start(k: nat): int
    requires k <= 256
  {
    (k - Offset(LengthAt(k))) * Span(LengthAt(k))
  }

  /** The first 30-bit word past those that start with the codeword of rank `k`. */
  function End(k: nat): int
    requires k <= 256
  {
    Start(k) + Span(LengthAt(k))
  }

  lemma Distribute(a: int, b: int)
    ensures (a + 1) * b == a * b + b
  {
  }

  /** The codewords, left-aligned to 30 bits, cover [0, 2^30) without gap or overlap. */
  lemma TileStep(k: nat)
    requires k < 256
    ensures End(k) == Start(k + 1)
  {
    var n := LengthAt(k);
    if LengthAt(k + 1) == n {
      Distribute(k - Offset(n), Span(n));
    }
  }

  lemma TileEnds()
    ensures Start(0) == 0 && End(256) == 0x4000_0000
  {
  }

  lemma {:induction false} StartsIncrease(j: nat, k: nat)
    requires j < k <= 256
    ensures End(j) <= Start(k)
  {
    TileStep(k - 1);
    if j + 1 < k {
      StartsIncrease(j, k - 1);
    }
  }

  lemma {:induction false} FindTile(v: nat, n: nat) returns (k: nat)
    requires n <= 256 && v < End(n)
    ensures k <= n && Start(k) <= v < End(k)
  {
    TileEnds();
    if Start(n) <= v {
      k := n;
    } else {
      TileStep(n - 1);
      k := FindTile(v, n - 1);
    }
  }

  lemma {:induction false} SpanIsPow2(n: nat)
    requires n <= 30
    ensures Span(n) == Pow2(30 - n)
    decreases 30 - n
  {
    if n < 30 {
      SpanIsPow2(n + 1);
      assert Span(n) == 2 * Span(n + 1);
      assert Pow2(30 - n) == 2 * Pow2(30 - (n + 1));
    }
  }

  // ---------------------------------------------------------------- the canonical order

  /** The lengths of the codewords, in bits, as the last column of Appendix B gives them. */
  const LENGTHS: seq<seq<nat>> := [
    [13, 23, 28, 28, 28, 28, 28, 28, 28, 24, 30, 28, 28, 30, 28, 28],
    [28, 28, 28, 28, 28, 28, 30, 28, 28, 28, 28, 28, 28, 28, 28, 28],
    [6, 10, 10, 12, 13, 6, 8, 11, 10, 10, 8, 11, 8, 6, 6, 6],
    [5, 5, 5, 6, 6, 6, 6, 6, 6, 6, 7, 8, 15, 6, 12, 10],
    [13, 6, 7, 7, 7, 7, 7, 7, 7, 7, 7, 7, 7, 7, 7, 7],
    [7, 7, 7, 7, 7, 7, 7, 7, 8, 7, 8, 13, 19, 13, 14, 6],
    [15, 5, 6, 5, 6, 5, 6, 6, 6, 5, 7, 7, 6, 6, 6, 5],
    [6, 7, 6, 5, 5, 6, 7, 7, 7, 7, 7, 15, 11, 14, 13, 28],
    [20, 22, 20, 20, 22, 22, 22, 23, 22, 23, 23, 23, 23, 23, 24, 23],
    [24, 24, 22, 23, 24, 23, 23, 23, 23, 21, 22, 23, 22, 23, 23, 24],
    [22, 21, 20, 22, 22, 23, 23, 21, 23, 22, 22, 24, 21, 22, 23, 23],
    [21, 21, 22, 21, 23, 22, 23, 23, 20, 22, 22, 22, 23, 22, 22, 23],
    [26, 26, 20, 19, 22, 23, 22, 25, 26, 26, 26, 27, 27, 26, 24, 25],
    [19, 21, 26, 27, 27, 26, 27, 24, 21, 21, 26, 26, 28, 27, 27, 27],
    [20, 24, 20, 21, 22, 21, 21, 23, 22, 22, 25, 25, 24, 24, 26, 23],
    [26, 27, 26, 26, 27, 27, 27, 27, 27, 28, 27, 27, 27, 27, 27, 26],
    [30]
  ]

  function LengthOf(s: nat): nat
    requires s <= 256
  {
    LENGTHS[s / 16][s % 16]
  }

  lemma LengthsFrom0(s: nat)
    requires 0 <= s < 16
    ensures Entry(s).numbits == LengthOf(s)
  {
  }

  lemma LengthsFrom16(s: nat)
    requires 16 <= s < 32
    ensures Entry(s).numbits == LengthOf(s)
  {
  }

  lemma LengthsFrom32(s: nat)
    requires 32 <= s < 48
    ensures Entry(s).numbits == LengthOf(s)
  {
  }

  lemma LengthsFrom48(s: nat)
    requires 48 <= s < 64
    ensures Entry(s).numbits == LengthOf(s)
  {
  }

  lemma LengthsFrom64(s: nat)
    requires 64 <= s < 80
    ensures Entry(s).numbits == LengthOf(s)
  {
  }

  lemma LengthsFrom80(s: nat)
    requires 80 <= s < 96
    ensures Entry(s).numbits == LengthOf(s)
  {
  }

  lemma LengthsFrom96(s: nat)
    requires 96 <= s < 112
    ensures Entry(s).numbits == LengthOf(s)
  {
  }

  lemma LengthsFrom112(s: nat)
    requires 112 <= s < 128
    ensures Entry(s).numbits == LengthOf(s)
  {
  }

  lemma LengthsFrom128(s: nat)
    requires 128 <= s < 144
    ensures Entry(s).numbits == LengthOf(s)
  {
  }

  lemma LengthsFrom144(s: nat)
    requires 144 <= s < 160
    ensures Entry(s).numbits == LengthOf(s)
  {
  }

  lemma LengthsFrom160(s: nat)
    requires 160 <= s < 176
    ensures Entry(s).numbits == LengthOf(s)
  {
  }

  lemma LengthsFrom176(s: nat)
    requires 176 <= s < 192
    ensures Entry(s).numbits == LengthOf(s)
  {
  }

  lemma LengthsFrom192(s: nat)
    requires 192 <= s < 208
    ensures Entry(s).numbits == LengthOf(s)
  {
  }

  lemma LengthsFrom208(s: nat)
    requires 208 <= s < 224
    ensures Entry(s).numbits == LengthOf(s)
  {
  }

  lemma LengthsFrom224(s: nat)
    requires 224 <= s < 240
    ensures Entry(s).numbits == LengthOf(s)
  {
  }

  lemma LengthsFrom240(s: nat)
    requires 240 <= s < 256
    ensures Entry(s).numbits == LengthOf(s)
  {
  }

  lemma LengthIs(s: nat)
    requires s <= 256
    ensures Entry(s).numbits == LengthOf(s)
  {
    match s / 16
    case 0 => LengthsFrom0(s);
    case 1 => LengthsFrom16(s);
    case 2 => LengthsFrom32(s);
    case 3 => LengthsFrom48(s);
    case 4 => LengthsFrom64(s);
    case 5 => LengthsFrom80(s);
    case 6 => LengthsFrom96(s);
    case 7 => LengthsFrom112(s);
    case 8 => LengthsFrom128(s);
    case 9 => LengthsFrom144(s);
    case 10 => LengthsFrom160(s);
    case 11 => LengthsFrom176(s);
    case 12 => LengthsFrom192(s);
    case 13 => LengthsFrom208(s);
    case 14 => LengthsFrom224(s);
    case 15 => LengthsFrom240(s);
    case _ =>
  }

  lemma AscendingFrom0(k: nat)
    requires 0 <= k < 32 && LengthAt(k) == LengthAt(k + 1)
    ensures SymbolAt(k) < SymbolAt(k + 1)
  {
  }

  lemma AscendingFrom32(k: nat)
    requires 32 <= k < 64 && LengthAt(k) == LengthAt(k + 1)
    ensures SymbolAt(k) < SymbolAt(k + 1)
  {
  }

  lemma AscendingFrom64(k: nat)
    requires 64 <= k < 96 && LengthAt(k) == LengthAt(k + 1)
    ensures SymbolAt(k) < SymbolAt(k + 1)
  {
  }

  lemma AscendingFrom96(k: nat)
    requires 96 <= k < 128 && LengthAt(k) == LengthAt(k + 1)
    ensures SymbolAt(k) < SymbolAt(k + 1)
  {
  }

  lemma AscendingFrom128(k: nat)
    requires 128 <= k < 160 && LengthAt(k) == LengthAt(k + 1)
    ensures SymbolAt(k) < SymbolAt(k + 1)
  {
  }

  lemma AscendingFrom160(k: nat)
    requires 160 <= k < 192 && LengthAt(k) == LengthAt(k + 1)
    ensures SymbolAt(k) < SymbolAt(k + 1)
  {
  }

  lemma AscendingFrom192(k: nat)
    requires 192 <= k < 224 && LengthAt(k) == LengthAt(k + 1)
    ensures SymbolAt(k) < SymbolAt(k + 1)
  {
  }

  lemma AscendingFrom224(k: nat)
    requires 224 <= k < 256 && LengthAt(k) == LengthAt(k + 1)
    ensures SymbolAt(k) < SymbolAt(k + 1)
  {
  }

  lemma Ascending(k: nat)
    requires k < 256 && LengthAt(k) == LengthAt(k + 1)
    ensures SymbolAt(k) < SymbolAt(k + 1)
  {
    hide SymbolAt, LengthAt;
    match k / 32
    case 0 => AscendingFrom0(k);
    case 1 => AscendingFrom32(k);
    case 2 => AscendingFrom64(k);
    case 3 => AscendingFrom96(k);
    case 4 => AscendingFrom128(k);
    case 5 => AscendingFrom160(k);
    case 6 => AscendingFrom192(k);
    case _ => AscendingFrom224(k);
  }

  lemma LengthsGrow(j: nat, k: nat)
    requires j <= k
    ensures LengthAt(j) <= LengthAt(k)
  {
  }

  /** Among codewords of one length, higher ranks belong to higher symbols. */
  lemma {:induction false} SameLengthAscends(j: nat, k: nat)
    requires j < k <= 256 && LengthAt(j) == LengthAt(k)
    ensures SymbolAt(j) < SymbolAt(k)
  {
    hide SymbolAt, LengthAt;
    LengthsGrow(j, k - 1);
    LengthsGrow(k - 1, k);
    Ascending(k - 1);
    if j < k - 1 {
      SameLengthAscends(j, k - 1);
    }
  }

  /** Shorter codewords come first, and those of one length by symbol. */
  predicate ComesBefore(s: nat, t: nat)
    requires s <= 256 && t <= 256
  {
    LengthOf(s) < LengthOf(t) || (LengthOf(s) == LengthOf(t) && s < t)
  }

  /** The code is canonical: left-aligned to 30 bits, the codewords are in the order of their lengths
      and, for equal lengths, of their symbols. With the lengths, and as there are no gaps, this
      leaves no choice for any codeword. */
  lemma CanonicalOrder(s: nat, t: nat)
    requires s <= 256 && t <= 256
    ensures Entry(s).numbits == LengthOf(s) <= 30 && Entry(t).numbits == LengthOf(t) <= 30
    ensures Entry(s).bits * Span(LengthOf(s)) < Entry(t).bits * Span(LengthOf(t)) <==> ComesBefore(s, t)
  {
    hide Entry, SymbolAt, LengthAt, LengthOf, Span, Offset;
    LengthIs(s);
    LengthIs(t);
    var j := RankOfSymbol(s);
    var k := RankOfSymbol(t);
    InOrder(s, j, t, k);
    if k < j {
      InOrder(t, k, s, j);
    } else if j == k {
      SymbolUnique(s, t, k);
    }
  }

  lemma InOrder(s: nat, j: nat, t: nat, k: nat)
    requires j <= 256 && k <= 256 && CodeAt(s, j) && CodeAt(t, k)
    requires Entry(s).numbits == LengthOf(s) && Entry(t).numbits == LengthOf(t)
    ensures LengthOf(s) <= 30 && LengthOf(t) <= 30
    ensures j < k ==> ComesBefore(s, t)
    ensures j < k ==> Entry(s).bits * Span(LengthOf(s)) < Entry(t).bits * Span(LengthOf(t))
  {
    hide Entry, SymbolAt, LengthOf, Span, Offset, Start, End;
    if j < k {
      LengthsGrow(j, k);
      StartsIncrease(j, k);
      StartIs(s, j);
      StartIs(t, k);
      SpanPositive(LengthAt(j));
      if LengthAt(j) == LengthAt(k) {
        SameLengthAscends(j, k);
        RankedSymbol(s, j);
        RankedSymbol(t, k);
      }
    }
  }

  lemma StartIs(s: nat, k: nat)
    requires k <= 256 && CodeAt(s, k)
    ensures Entry(s).numbits == LengthAt(k)
    ensures Entry(s).bits * Span(LengthAt(k)) == Start(k) && End(k) == Start(k) + Span(LengthAt(k))
  {
    hide Entry, Span, Offset, LengthAt;
  }

  lemma SpanPositive(n: nat)
    requires n <= 30
    ensures Span(n) > 0
  {
  }

  lemma RankedSymbol(s: nat, k: nat)
    requires k <= 256 && CodeAt(s, k)
    ensures s == SymbolAt(k)
  {
    hide CodeAt, SymbolAt;
    var t := SymbolOfRank(k);
    SymbolUnique(s, t, k);
  }
}
