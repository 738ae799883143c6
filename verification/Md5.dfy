/** The word functions of MD5 (section 3.4 of RFC 1321) and the macros that stand for them in abup_md5.c. */
module Md5Bits {
  type word = bv32

  function RotateLeft(x: word, s: nat): (r: word)
    requires s <= 32
  {
    (x << s) | (x >> (32 - s))
  }

  /** The auxiliary functions F, G, H and I of the four rounds. */
  function Auxiliary(round: nat, x: word, y: word, z: word): (r: word)
  {
    if round == 0 then (x & y) | (!x & z)
    else if round == 1 then (x & z) | (y & !z)
    else if round == 2 then x ^ y ^ z
    else y ^ (x | !z)
  }

  /** The auxiliary functions as the macros F, G, H, H2 and I compute them. */
  function Macro(round: nat, odd: bool, x: word, y: word, z: word): (r: word)
  {
    if round == 0 then z ^ (x & (y ^ z))
    else if round == 1 then y ^ (z & (x ^ y))
    else if round == 2 then if odd then x ^ (y ^ z) else (x ^ y) ^ z
    else y ^ (x | !z)
  }

  /** The optimized macros compute the functions of the RFC. */
  lemma MacroIsAuxiliary(round: nat, odd: bool, x: word, y: word, z: word)
    ensures Macro(round, odd, x, y, z) == Auxiliary(round, x, y, z)
  {
    hide Macro, Auxiliary;
    if round == 0 {
      MacroF(odd, x, y, z);
    } else if round == 1 {
      MacroG(odd, x, y, z);
    } else {
      MacroHI(round, odd, x, y, z);
    }
  }

  lemma MacroF(odd: bool, x: word, y: word, z: word)
    ensures Macro(0, odd, x, y, z) == Auxiliary(0, x, y, z)
  {
    ChooseByX(x, y, z);
  }

  lemma MacroG(odd: bool, x: word, y: word, z: word)
    ensures Macro(1, odd, x, y, z) == Auxiliary(1, x, y, z)
  {
    ChooseByZ(x, y, z);
  }

  lemma MacroHI(round: nat, odd: bool, x: word, y: word, z: word)
    requires round >= 2
    ensures Macro(round, odd, x, y, z) == Auxiliary(round, x, y, z)
  {
    XorAssociates(x, y, z);
  }

  lemma ChooseByX(x: word, y: word, z: word)
    ensures z ^ (x & (y ^ z)) == (x & y) | (!x & z)
  {}

  lemma ChooseByZ(x: word, y: word, z: word)
    ensures y ^ (z & (x ^ y)) == (x & z) | (y & !z)
  {}

  lemma XorAssociates(x: word, y: word, z: word)
    ensures x ^ (y ^ z) == (x ^ y) ^ z
  {}

  /** Addition modulo 2^32. */
  function Add(x: word, y: word): (r: word)
  {
    x + y
  }

  lemma AddCommutes(x: word, y: word)
    ensures Add(x, y) == Add(y, x)
  {}
}

/** MD5 as RFC 1321 defines it, and the compression function as abup_md5.c spells it out. */
module Md5 {
  import opened Bytes
  import opened Md5Bits

  /** The four chaining words A, B, C, D. */
  datatype Words = Words(a: word, b: word, c: word, d: word)

  const INIT := Words(0x67452301, 0xefcdab89, 0x98badcfe, 0x10325476)

  /** The sine table T[1..64] of section 3.4. */
  const T: seq<word> := [
    0xd76aa478, 0xe8c7b756, 0x242070db, 0xc1bdceee, 0xf57c0faf, 0x4787c62a, 0xa8304613, 0xfd469501,
    0x698098d8, 0x8b44f7af, 0xffff5bb1, 0x895cd7be, 0x6b901122, 0xfd987193, 0xa679438e, 0x49b40821,
    0xf61e2562, 0xc040b340, 0x265e5a51, 0xe9b6c7aa, 0xd62f105d, 0x02441453, 0xd8a1e681, 0xe7d3fbc8,
    0x21e1cde6, 0xc33707d6, 0xf4d50d87, 0x455a14ed, 0xa9e3e905, 0xfcefa3f8, 0x676f02d9, 0x8d2a4c8a,
    0xfffa3942, 0x8771f681, 0x6d9d6122, 0xfde5380c, 0xa4beea44, 0x4bdecfa9, 0xf6bb4b60, 0xbebfbc70,
    0x289b7ec6, 0xeaa127fa, 0xd4ef3085, 0x04881d05, 0xd9d4d039, 0xe6db99e5, 0x1fa27cf8, 0xc4ac5665,
    0xf4292244, 0x432aff97, 0xab9423a7, 0xfc93a039, 0x655b59c3, 0x8f0ccc92, 0xffeff47d, 0x85845dd1,
    0x6fa87e4f, 0xfe2ce6e0, 0xa3014314, 0x4e0811a1, 0xf7537e82, 0xbd3af235, 0x2ad7d2bb, 0xeb86d391
  ]

  function Sine(i: nat): (t: word)
    requires i < 64
  {
    T[i]
  }

  // ----- section 3.4, step by step

  /** Which word of the block a step adds. */
  function Schedule(i: nat): (k: nat)
    ensures k < 16
  {
    if i < 16 then i
    else if i < 32 then (5 * i + 1) % 16
    else if i < 48 then (3 * i + 5) % 16
    else 7 * i % 16
  }

  function Shift(i: nat): (s: nat)
    ensures s <= 32
  {
    if i < 16 then [7, 12, 17, 22][i % 4]
    else if i < 32 then [5, 9, 14, 20][i % 4]
    else if i < 48 then [4, 11, 16, 23][i % 4]
    else [6, 10, 15, 21][i % 4]
  }

  /** Step i, with the registers renamed so that the next step again starts from (a, b, c, d). */
  function Operation(w: Words, x: seq<word>, i: nat): (r: Words)
    requires |x| == 16 && i < 64
  {
    var sum := Add(Add(Add(w.a, Auxiliary(i / 16, w.b, w.c, w.d)), x[Schedule(i)]), Sine(i));
    Words(w.d, Add(w.b, RotateLeft(sum, Shift(i))), w.b, w.c)
  }

  function Operations(w: Words, x: seq<word>, n: nat): (r: Words)
    requires |x| == 16 && n <= 64
  {
    if n == 0 then w else Operation(Operations(w, x, n - 1), x, n - 1)
  }

  function WordAt(block: seq<byte>, n: nat): (x: word)
    requires |block| == 64 && n < 16
  {
    FromBytes(block[4 * n], block[4 * n + 1], block[4 * n + 2], block[4 * n + 3])
  }

  function Bits(b: byte): (x: bv8)
  {
    b as bv8
  }

  function OfBits(x: bv8): (b: byte)
  {
    x as int
  }

  lemma BitsOfBits(x: bv8)
    ensures Bits(OfBits(x)) == x
  {}

  /** The SET macro. */
  function FromBytes(b0: byte, b1: byte, b2: byte, b3: byte): (x: word)
  {
    (Bits(b0) as word) | (Bits(b1) as word << 8) | (Bits(b2) as word << 16) | (Bits(b3) as word << 24)
  }

  function Low(x: word): (c: bv8)
  {
    (x & 0xFF) as bv8
  }

  /** The four bytes of a word as they are stored. */
  function ToBytes(x: word): (b: seq<byte>)
    ensures |b| == 4
  {
    [OfBits(Low(x)), OfBits(Low(x >> 8)), OfBits(Low(x >> 16)), OfBits(Low(x >> 24))]
  }

  /** A word that was stored is read back. */
  lemma WordsReadBack(x: word)
    ensures var b := ToBytes(x); FromBytes(b[0], b[1], b[2], b[3]) == x
  {
    var c0, c1, c2, c3 := Low(x), Low(x >> 8), Low(x >> 16), Low(x >> 24);
    Reassembled(x);
    StoredBits(c0, c1, c2, c3);
    StoredAs(x);
    hide *;
  }

  lemma StoredAs(x: word)
    ensures ToBytes(x) == [OfBits(Low(x)), OfBits(Low(x >> 8)), OfBits(Low(x >> 16)), OfBits(Low(x >> 24))]
  {
    hide Low, OfBits;
  }

  /** Its low-order byte is stored first. */
  lemma LowByteFirst(x: word)
    requires x < 256
    ensures ToBytes(x)[1..] == [OfBits(0), OfBits(0), OfBits(0)]
  {
    Reassembled(x);
    StoredAs(x);
    hide *;
  }

  lemma StoredBits(c0: bv8, c1: bv8, c2: bv8, c3: bv8)
    ensures FromBytes(OfBits(c0), OfBits(c1), OfBits(c2), OfBits(c3)) ==
            (c0 as word) | (c1 as word << 8) | (c2 as word << 16) | (c3 as word << 24)
  {
    BitsOfBits(c0);
    BitsOfBits(c1);
    BitsOfBits(c2);
    BitsOfBits(c3);
    hide Bits, OfBits;
  }

  lemma Reassembled(x: word)
    ensures (Low(x) as word) | (Low(x >> 8) as word << 8) | (Low(x >> 16) as word << 16) | (Low(x >> 24) as word << 24) == x
    ensures x < 256 ==> Low(x >> 8) == 0 && Low(x >> 16) == 0 && Low(x >> 24) == 0
  {}

  /** The words of a digest, read as the words of a block are, are the registers in the order a, b, c, d. */
  lemma DigestReadsBack(w: Words)
    ensures var b := Output(w);
            && FromBytes(b[0], b[1], b[2], b[3]) == w.a && FromBytes(b[4], b[5], b[6], b[7]) == w.b
            && FromBytes(b[8], b[9], b[10], b[11]) == w.c && FromBytes(b[12], b[13], b[14], b[15]) == w.d
  {
    WordsReadBack(w.a);
    WordsReadBack(w.b);
    WordsReadBack(w.c);
    WordsReadBack(w.d);
    hide ToBytes, FromBytes;
  }

  function BlockWords(block: seq<byte>): (x: seq<word>)
    requires |block| == 64
    ensures |x| == 16
  {
    seq(16, n requires 0 <= n < 16 => WordAt(block, n))
  }

  function Compress(w: Words, block: seq<byte>): (r: Words)
    requires |block| == 64
  {
    var e := Operations(w, BlockWords(block), 64);
    Words(Add(w.a, e.a), Add(w.b, e.b), Add(w.c, e.c), Add(w.d, e.d))
  }

  /** A whole number of blocks. */
  predicate Aligned(n: nat)
  {
    n % 64 == 0
  }

  lemma AlignedAdds(m: nat, n: nat)
    requires Aligned(m)
    ensures Aligned(m + n) <==> Aligned(n)
  {}

  function CompressAll(w: Words, data: seq<byte>): (r: Words)
    requires Aligned(|data|)
    decreases |data|
  {
    if data == [] then w
    else
      OneBlockLess(|data|);
      CompressAll(Compress(w, data[..64]), data[64..])
  }

  lemma OneBlockLess(n: nat)
    requires n > 0 && Aligned(n)
    ensures n >= 64 && Aligned(n - 64)
  {}

  // ----- padding and output

  function LittleEndian(v: nat, n: nat): (b: seq<byte>)
    ensures |b| == n
    decreases n
  {
    if n == 0 then [] else [v % 0x100] + LittleEndian(v / 0x100, n - 1)
  }

  function Zeros(n: nat): (b: seq<byte>)
    ensures |b| == n
  {
    seq(n, _ => 0)
  }

  /** Sections 3.1 and 3.2: a one bit, zeros up to 56 modulo 64 bytes, and the bit count modulo 2^64. */
  function Padding(length: nat): (b: seq<byte>)
    ensures Aligned(length + |b|)
  {
    PaddingFits(length);
    [0x80] + Zeros(PadZeros(length)) + LittleEndian(8 * length % 0x1_0000_0000_0000_0000, 8)
  }

  function PadZeros(length: nat): (n: nat)
  {
    (119 - length % 64) % 64
  }

  lemma PaddingFits(length: nat)
    ensures Aligned(length + 1 + PadZeros(length) + 8)
  {
    var r := length % 64;
    assert PadZeros(length) == if r < 56 then 55 - r else 119 - r;
    assert length == 64 * (length / 64) + r;
  }

  function Output(w: Words): (b: seq<byte>)
    ensures |b| == 16
  {
    ToBytes(w.a) + ToBytes(w.b) + ToBytes(w.c) + ToBytes(w.d)
  }

  function Digest(message: seq<byte>): (b: seq<byte>)
    ensures |b| == 16
  {
    Output(CompressAll(INIT, message + Padding(|message|)))
  }

  // ----- the compression loop of abup_md5.c

  /** The block words named by the STEP lines of each round, in order. */
  const ROUND1: seq<nat> := [0, 1, 2, 3, 4, 5, 6, 7, 8, 9, 10, 11, 12, 13, 14, 15]
  const ROUND2: seq<nat> := [1, 6, 11, 0, 5, 10, 15, 4, 9, 14, 3, 8, 13, 2, 7, 12]
  const ROUND3: seq<nat> := [5, 8, 11, 14, 1, 4, 7, 10, 13, 0, 3, 6, 9, 12, 15, 2]
  const ROUND4: seq<nat> := [0, 7, 14, 5, 12, 3, 10, 1, 8, 15, 6, 13, 4, 11, 2, 9]

  function Line(i: nat): (k: nat)
    requires i < 64
  {
    if i < 16 then ROUND1[i]
    else if i < 32 then ROUND2[i - 16]
    else if i < 48 then ROUND3[i - 32]
    else ROUND4[i - 48]
  }

  /** The shift amounts named by the STEP lines of each round, in order. */
  const SHIFTS1: seq<nat> := [7, 12, 17, 22, 7, 12, 17, 22, 7, 12, 17, 22, 7, 12, 17, 22]
  const SHIFTS2: seq<nat> := [5, 9, 14, 20, 5, 9, 14, 20, 5, 9, 14, 20, 5, 9, 14, 20]
  const SHIFTS3: seq<nat> := [4, 11, 16, 23, 4, 11, 16, 23, 4, 11, 16, 23, 4, 11, 16, 23]
  const SHIFTS4: seq<nat> := [6, 10, 15, 21, 6, 10, 15, 21, 6, 10, 15, 21, 6, 10, 15, 21]

  function LineShift(i: nat): (s: nat)
    requires i < 64
  {
    if i < 16 then SHIFTS1[i]
    else if i < 32 then SHIFTS2[i - 16]
    else if i < 48 then SHIFTS3[i - 32]
    else SHIFTS4[i - 48]
  }

  /** The amounts written out in the source are those of the RFC. */
  lemma LineShiftIsShift(i: nat)
    requires i < 64
    ensures LineShift(i) == Shift(i)
  {
    if i < 16 {
      Shifts(SHIFTS1, 7, 12, 17, 22, i);
    } else if i < 32 {
      Shifts(SHIFTS2, 5, 9, 14, 20, i - 16);
    } else if i < 48 {
      Shifts(SHIFTS3, 4, 11, 16, 23, i - 32);
    } else {
      Shifts(SHIFTS4, 6, 10, 15, 21, i - 48);
    }
  }

  lemma Shifts(row: seq<nat>, a: nat, b: nat, c: nat, d: nat, j: nat)
    requires row == [a, b, c, d, a, b, c, d, a, b, c, d, a, b, c, d] && j < 16
    ensures row[j] == [a, b, c, d][j % 4] && (j + 16) % 4 == j % 4 && (j + 32) % 4 == j % 4 && (j + 48) % 4 == j % 4
  {}

  /** The indices written out in the source follow the schedule of the RFC. */
  lemma LineIsSchedule(i: nat)
    requires i < 64
    ensures Line(i) == Schedule(i)
  {
    if i < 16 {
    } else if i < 32 {
      Round2(i - 16);
    } else if i < 48 {
      Round3(i - 32);
    } else {
      Round4(i - 48);
    }
  }

  lemma Round2(j: nat)
    requires j < 16
    ensures ROUND2[j] == (5 * (j + 16) + 1) % 16
  {}

  lemma Round3(j: nat)
    requires j < 16
    ensures ROUND3[j] == (3 * (j + 32) + 5) % 16
  {}

  lemma Round4(j: nat)
    requires j < 16
    ensures ROUND4[j] == 7 * (j + 48) % 16
  {}

  /** The macro STEP: the new value of its first register. */
  function StepLine(i: nat, a: word, b: word, c: word, d: word, x: seq<word>): (r: word)
    requires i < 64 && |x| == 16
  {
    LineIsSchedule(i);
    LineShiftIsShift(i);
    var sum := Add(Add(Add(a, Macro(i / 16, i % 2 == 1, b, c, d)), x[Line(i)]), Sine(i));
    Add(RotateLeft(sum, LineShift(i)), b)
  }

  /** A STEP line is one operation of the RFC. */
  lemma StepLineIsOperation(i: nat, w: Words, x: seq<word>)
    requires i < 64 && |x| == 16
    ensures Operation(w, x, i) == Words(w.d, StepLine(i, w.a, w.b, w.c, w.d, x), w.b, w.c)
  {
    hide Macro, Auxiliary, RotateLeft, Shift, LineShift, Schedule, Line, Sine, Add;
    LineIsSchedule(i);
    LineShiftIsShift(i);
    MacroIsAuxiliary(i / 16, i % 2 == 1, w.b, w.c, w.d);
    var f, k, t := Auxiliary(i / 16, w.b, w.c, w.d), x[Schedule(i)], Sine(i);
    AddCommutes(w.b, RotateLeft(Add(Add(Add(w.a, f), k), t), Shift(i)));
  }

  lemma {:induction false} CompressAllAppend(w: Words, x: seq<byte>, y: seq<byte>)
    requires Aligned(|x|) && Aligned(|y|)
    ensures Aligned(|x + y|)
    ensures CompressAll(w, x + y) == CompressAll(CompressAll(w, x), y)
    decreases |x|
  {
    hide Compress;
    AlignedAdds(|x|, |y|);
    if x == [] {
      assert x + y == y;
    } else {
      OneBlockLess(|x|);
      assert (x + y)[..64] == x[..64] && (x + y)[64..] == x[64..] + y;
      CompressAllAppend(Compress(w, x[..64]), x[64..], y);
    }
  }

  // ----- byte counts

  lemma {:induction false} LittleEndianAppend(x: nat, y: nat, m: nat, n: nat)
    requires x < Pow256(m)
    ensures LittleEndian(x + Pow256(m) * y, m + n) == LittleEndian(x, m) + LittleEndian(y, n)
    decreases m
  {
    if m == 0 {
      assert Pow256(0) * y == y;
    } else {
      var p := Pow256(m - 1);
      var v := x + Pow256(m) * y;
      assert Pow256(m) * y == 0x100 * (p * y);
      assert v % 0x100 == x % 0x100 && v / 0x100 == x / 0x100 + p * y;
      LittleEndianAppend(x / 0x100, y, m - 1, n);
      assert LittleEndian(v, m + n) == [v % 0x100] + LittleEndian(v / 0x100, m - 1 + n);
      assert LittleEndian(x, m) == [x % 0x100] + LittleEndian(x / 0x100, m - 1);
    }
  }

  const TWO29 := 0x2000_0000
  const TWO32 := 0x1_0000_0000
  const TWO61 := 0x2000_0000_0000_0000

  /** The pair (hi, lo) counts bytes modulo 2^61. */
  predicate Counts(hi: u32, lo: u32, length: nat)
  {
    lo < TWO29 && hi * TWO29 + lo == length % TWO61
  }

  /** Adding to the count with the carry test of abup_MD5_Update. */
  lemma CountAdds(hi: u32, lo: u32, length: nat, size: u32)
    requires Counts(hi, lo, length)
    ensures var lo' := (lo + size) % TWO29;
            var carry := if lo' < lo then 1 else 0;
            Counts((hi + carry + size / TWO29) % TWO32, lo', length + size)
  {
    var lo' := (lo + size) % TWO29;
    var carry := if lo' < lo then 1 else 0;
    var q := carry + size / TWO29;
    assert lo + size == q * TWO29 + lo';
    var high := hi + q;
    var k := length / TWO61 + high / TWO32;
    assert length + size == k * TWO61 + ((high % TWO32) * TWO29 + lo');
    ModUnique(length + size, TWO61, k, (high % TWO32) * TWO29 + lo');
  }

  /** The eight length bytes that abup_MD5_Final writes. */
  lemma LengthBytes(hi: u32, lo: u32, length: nat)
    requires Counts(hi, lo, length)
    ensures LittleEndian(8 * lo, 4) + LittleEndian(hi, 4) == LittleEndian(8 * length % 0x1_0000_0000_0000_0000, 8)
  {
    ModUnique(8 * length, 8 * TWO61, length / TWO61, 8 * (length % TWO61));
    Powers();
    LittleEndianAppend(8 * lo, hi, 4, 4);
  }
}
