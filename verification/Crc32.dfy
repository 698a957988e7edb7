/** The checksum both ends of the file-distribution protocol keep: the bit-by-bit reflected
    CRC-32 loop, its meaning as a polynomial remainder over GF(2) (clause 3.2.9 of IEEE 802.3),
    and the error bursts it is guaranteed to catch. */
module Crc32 {
  import opened Bytes
  import opened Gf2
  import opened Words

  const POLY: bv32 := 0xEDB88320
  const INIT: bv32 := 0xFFFF_FFFF

  /** x^32 + x^26 + x^23 + x^22 + x^16 + x^12 + x^11 + x^10 + x^8 + x^7 + x^5 + x^4 + x^2 + x + 1 */
  const GENERATOR: Poly :=
    [true] + ([false, false, false, false] + ([false, true, false, false] + ([true, true, false, false] +
    ([false, false, false, true] + ([false, false, false, true] + ([true, true, false, true] +
    ([true, false, true, true] + ([false, true, true, true] + []))))))))

  // ---------------------------------------------------------------- the loops of the program

  /** One turn of the inner loop. */
  function Shift(crc: bv32): bv32 {
    (crc >> 1) ^ (POLY & (0 - (crc & 1)))
  }

  /** The word whose low n bits are those of b. */
  function WordOf(b: nat, n: nat): bv32
    decreases n
  {
    if n == 0 then 0 else Push(WordOf(b / 2, n - 1), b % 2 == 1)
  }

  /** A byte widened to the accumulator's width. */
  function Word(b: byte): bv32 {
    WordOf(b, 8)
  }

  function ShiftN(crc: bv32, n: nat): bv32
    decreases n, crc
  {
    if n == 0 then crc else ShiftN(Shift(crc), n - 1)
  }

  /** One turn of the outer loop. */
  function Feed(crc: bv32, b: byte): bv32 {
    ShiftN(crc ^ Word(b), 8)
  }

  /** The accumulator after a whole buffer. */
  function Update(crc: bv32, data: seq<byte>): bv32
    decreases |data|
  {
    if data == [] then crc else Update(Feed(crc, data[0]), data[1..])
  }

  function Checksum(data: seq<byte>): bv32 {
    !Update(INIT, data)
  }

  lemma ChecksumOf(data: seq<byte>, crc: bv32)
    requires crc == Update(INIT, data)
    ensures !crc == Checksum(data)
  {
  }

  /** The accumulator does not see how a file was cut into buffers. */
  lemma {:induction false} UpdateConcat(crc: bv32, a: seq<byte>, b: seq<byte>)
    ensures Update(crc, a + b) == Update(Update(crc, a), b)
    decreases |a|
  {
    if a == [] {
      assert a + b == b;
    } else {
      assert (a + b)[1..] == a[1..] + b;
      UpdateConcat(Feed(crc, a[0]), a[1..], b);
    }
  }

  lemma UpdateNothing(crc: bv32)
    ensures Update(crc, []) == crc
  {
  }

  lemma UpdateSnoc(crc: bv32, data: seq<byte>, i: nat)
    requires i < |data|
    ensures Update(crc, data[..i + 1]) == Feed(Update(crc, data[..i]), data[i])
  {
    assert data[..i + 1] == data[..i] + [data[i]];
    UpdateConcat(crc, data[..i], [data[i]]);
  }

  /** The two nested loops, run over one buffer on an accumulator: the sender's and the
      receiver's incremental form. */
  method Accumulate(start: bv32, buf: seq<byte>) returns (crc: bv32)
    ensures crc == Update(start, buf)
  {
    hide Update, WordOf;
    UpdateNothing(start);
    crc := start;
    assert buf[..0] == [];
    for i := 0 to |buf|
      invariant crc == Update(start, buf[..i])
    {
      UpdateSnoc(start, buf, i);
      crc := crc ^ Word(buf[i]);
      for j := 0 to 8
        invariant ShiftN(crc, 8 - j) == Update(start, buf[..i + 1])
      {
        crc := (crc >> 1) ^ (POLY & (0 - (crc & 1)));
      }
    }
    assert buf[..|buf|] == buf;
  }

  /** The one-shot form used for a submission's payload. */
  method Crc32Buf(buf: seq<byte>) returns (r: bv32)
    ensures r == Checksum(buf)
  {
    var crc := Accumulate(INIT, buf);
    r := !crc;
  }

  // --------------------------------------------------- the register and the bits it stands for

  /** The low n bits of a word, least significant first. */
  function LowBits(x: bv32, n: nat): (r: seq<bool>)
    ensures |r| == n
    decreases n, x
  {
    if n == 0 then [] else [x & 1 == 1] + LowBits(x >> 1, n - 1)
  }

  /** The n binary digits of b, lowest first. */
  function Digits(b: nat, n: nat): (r: seq<bool>)
    ensures |r| == n
    decreases n
  {
    if n == 0 then [] else [b % 2 == 1] + Digits(b / 2, n - 1)
  }

  /** The bits of a file in the order they go on the wire: bytes in order, low bit first. */
  function BitsOf(data: seq<byte>): (r: seq<bool>)
    ensures |r| == 8 * |data|
  {
    if data == [] then [] else Digits(data[0], 8) + BitsOf(data[1..])
  }

  /** The register fed one message bit. */
  function FeedBit(crc: bv32, b: bool): bv32 {
    Shift(crc ^ (if b then 1 else 0))
  }

  function FeedBits(crc: bv32, m: seq<bool>): bv32
    decreases |m|
  {
    if m == [] then crc
    else FeedBits(FeedBit(crc, m[0]), m[1..])
  }

  lemma ShiftSplit(c: bv32, x: bv32)
    ensures FeedBit(c, x & 1 == 1) ^ (x >> 1) == Shift(c ^ x)
  {
    var d := c ^ (if x & 1 == 1 then 1 else 0);
    LowBitXor(c, x, d, c ^ x);
    XorSwap(d >> 1, POLY & (0 - (d & 1)), x >> 1);
  }

  /** x has no bit at position n or above. */
  predicate Fits(x: bv32, n: nat)
    decreases n, x
  {
    if n == 0 then x == 0 else Fits(x >> 1, n - 1)
  }

  /** Feeding the bits of a word one by one is xor-ing it in and shifting it out. */
  lemma {:induction false} FeedWord(c: bv32, x: bv32, n: nat)
    requires Fits(x, n)
    ensures FeedBits(c, LowBits(x, n)) == ShiftN(c ^ x, n)
    decreases n
  {
    if n == 0 {
      assert c ^ x == c;
    } else {
      ShiftSplit(c, x);
      var c', bits, rest := FeedBit(c, x & 1 == 1), LowBits(x, n), LowBits(x >> 1, n - 1);
      assert bits[1..] == rest;
      FeedWord(c', x >> 1, n - 1);
    }
  }

  lemma {:induction false} FeedBitsConcat(c: bv32, a: seq<bool>, b: seq<bool>)
    ensures FeedBits(c, a + b) == FeedBits(FeedBits(c, a), b)
    decreases |a|
  {
    if a == [] {
      assert a + b == b;
    } else {
      assert (a + b)[1..] == a[1..] + b;
      FeedBitsConcat(FeedBit(c, a[0]), a[1..], b);
    }
  }

  lemma {:induction false} FitsLow(x: bv32, n: nat)
    requires Fits(x, n)
    ensures LowBits(x, n + 1) == LowBits(x, n) + [false]
  {
    if n > 0 {
      FitsLow(x >> 1, n - 1);
    }
  }

  lemma FitsByte(x: bv32, n: nat)
    ensures Fits(x, n + 8) == Fits(x >> 8, n)
  {
    assert Fits(x, n + 8) == Fits(x >> 1, n + 7);
    assert (x >> 1) >> 1 == x >> 2 && Fits(x >> 1, n + 7) == Fits(x >> 2, n + 6);
    assert (x >> 2) >> 1 == x >> 3 && Fits(x >> 2, n + 6) == Fits(x >> 3, n + 5);
    assert (x >> 3) >> 1 == x >> 4 && Fits(x >> 3, n + 5) == Fits(x >> 4, n + 4);
    assert (x >> 4) >> 1 == x >> 5 && Fits(x >> 4, n + 4) == Fits(x >> 5, n + 3);
    assert (x >> 5) >> 1 == x >> 6 && Fits(x >> 5, n + 3) == Fits(x >> 6, n + 2);
    assert (x >> 6) >> 1 == x >> 7 && Fits(x >> 6, n + 2) == Fits(x >> 7, n + 1);
    assert (x >> 7) >> 1 == x >> 8;
  }

  lemma FitsOneByte(x: bv32)
    requires x >> 8 == 0
    ensures Fits(x, 8)
  {
    FitsByte(x, 0);
  }

  lemma FitsTwoBytes(x: bv32)
    requires x >> 16 == 0
    ensures Fits(x, 16)
  {
    FitsByte(x, 8);
    FitsOneByte(x >> 8);
  }

  lemma FitsThreeBytes(x: bv32)
    requires x >> 24 == 0
    ensures Fits(x, 24)
  {
    FitsByte(x, 16);
    FitsTwoBytes(x >> 8);
  }

  lemma EveryWordFits(x: bv32)
    ensures Fits(x, 32)
  {
    FitsByte(x, 24);
    FitsThreeBytes(x >> 8);
  }

  lemma {:induction false} FitsUpTo(x: bv32, n: nat, k: nat)
    requires n <= k && Fits(x, n)
    ensures Fits(x, k)
    decreases k
  {
    if n == 0 {
      ZeroFits(k);
    } else {
      FitsUpTo(x >> 1, n - 1, k - 1);
    }
  }

  lemma {:induction false} ZeroFits(k: nat)
    ensures Fits(0, k)
  {
    if k > 0 {
      assert (0 as bv32) >> 1 == 0;
      ZeroFits(k - 1);
    }
  }

  lemma PushDigit(y: bv32, b: bool, n: nat)
    requires n < 8 && Fits(y, n)
    ensures var x := Push(y, b);
            Fits(x, n + 1) && LowBits(x, n + 1) == [b] + LowBits(y, n)
  {
    FitsUpTo(y, n, 8);
    FitsByte(y, 0);
    PushBit(y, b);
  }

  /** A word built from a byte's digits has those digits for its bits. */
  lemma {:induction false} WordBits(b: nat, n: nat)
    requires n <= 8
    ensures Fits(WordOf(b, n), n) && LowBits(WordOf(b, n), n) == Digits(b, n)
    decreases n
  {
    if n > 0 {
      hide Push, Fits, LowBits;
      WordBits(b / 2, n - 1);
      PushDigit(WordOf(b / 2, n - 1), b % 2 == 1, n - 1);
    }
  }

  lemma FeedIsFeedBits(crc: bv32, b: byte)
    ensures Feed(crc, b) == FeedBits(crc, Digits(b, 8))
  {
    hide WordOf, LowBits, Fits, Digits, FeedBits, ShiftN;
    WordBits(b, 8);
    FeedWord(crc, Word(b), 8);
  }

  /** Byte by byte or bit by bit, the accumulator ends up the same. */
  lemma {:induction false} UpdateIsFeedBits(crc: bv32, data: seq<byte>)
    ensures Update(crc, data) == FeedBits(crc, BitsOf(data))
    decreases |data|
  {
    if data != [] {
      var first, c := Digits(data[0], 8), Feed(crc, data[0]);
      FeedIsFeedBits(crc, data[0]);
      FeedBitsConcat(crc, first, BitsOf(data[1..]));
      UpdateIsFeedBits(c, data[1..]);
    }
  }

  lemma XorStep(x: bv32, y: bv32, z: bv32, x': bv32, y': bv32, z': bv32, n: nat)
    requires n > 0 && x' == x >> 1 && y' == y >> 1 && z' == z >> 1
    requires (z & 1 == 1) == ((x & 1 == 1) != (y & 1 == 1))
    requires LowBits(z', n - 1) == Add(LowBits(x', n - 1), LowBits(y', n - 1))
    ensures LowBits(z, n) == Add(LowBits(x, n), LowBits(y, n))
  {
    AddCons(x & 1 == 1, LowBits(x', n - 1), y & 1 == 1, LowBits(y', n - 1));
  }

  lemma {:induction false} LowBitsXor(x: bv32, y: bv32, z: bv32, n: nat)
    requires z == x ^ y
    ensures LowBits(z, n) == Add(LowBits(x, n), LowBits(y, n))
    decreases n
  {
    if n > 0 {
      XorBits(x, y);
      var x', y', z' := x >> 1, y >> 1, z >> 1;
      LowBitsXor(x', y', z', n - 1);
      XorStep(x, y, z, x', y', z', n);
    }
  }

  lemma {:induction false} LowBitsZero(n: nat)
    ensures LowBits(0, n) == Zeros(n)
  {
    if n > 0 {
      assert (0 as bv32) >> 1 == 0;
      LowBitsZero(n - 1);
    }
  }

  lemma LowBitsShift(x: bv32)
    ensures LowBits(x >> 1, 32) == LowBits(x, 32)[1..] + [false]
  {
    EveryWordFits(x);
    FitsLow(x, 32);
    assert LowBits(x, 33)[1..] == LowBits(x >> 1, 32);
  }

  lemma LowBitsNibble(x: bv32, n: nat)
    requires n >= 4
    ensures LowBits(x, n) == [x & 1 == 1, x & 2 == 2, x & 4 == 4, x & 8 == 8] + LowBits(x >> 4, n - 4)
  {
    NibbleBits(x);
    var a, b, c, d := x >> 1, x >> 2, x >> 3, x >> 4;
    assert LowBits(x, n) == [x & 1 == 1] + LowBits(a, n - 1);
    assert LowBits(a, n - 1) == [a & 1 == 1] + LowBits(b, n - 2);
    assert LowBits(b, n - 2) == [b & 1 == 1] + LowBits(c, n - 3);
    assert LowBits(c, n - 3) == [c & 1 == 1] + LowBits(d, n - 4);
  }

  lemma PolyLowHalf()
    ensures LowBits(POLY, 32) == [false, false, false, false] + ([false, true, false, false] +
              ([true, true, false, false] + ([false, false, false, true] + LowBits(0xEDB8, 16))))
  {
    LowBitsNibble(0xEDB88320, 32);
    LowBitsNibble(0xEDB8832, 28);
    LowBitsNibble(0xEDB883, 24);
    LowBitsNibble(0xEDB88, 20);
  }

  lemma PolyHighHalf()
    ensures LowBits(0xEDB8, 16) == [false, false, false, true] + ([true, true, false, true] +
              ([true, false, true, true] + ([false, true, true, true] + [])))
  {
    LowBitsNibble(0xEDB8, 16);
    LowBitsNibble(0xEDB, 12);
    LowBitsNibble(0xED, 8);
    LowBitsNibble(0xE, 4);
  }

  /** The reversed constant of the program is the generator without its leading term. */
  lemma PolyIsGenerator()
    ensures LowBits(POLY, 32) == GENERATOR[1..]
  {
    PolyLowHalf();
    PolyHighHalf();
    assert GENERATOR == [true] + LowBits(POLY, 32);
  }

  // ------------------------------------------------------------------- what the register means

  lemma MaskBits(d: bv32)
    ensures LowBits(POLY & (0 - (d & 1)), 32) == if d & 1 == 1 then GENERATOR[1..] else Zeros(32)
  {
    MaskIsPolyOrZero(d);
    PolyIsGenerator();
    LowBitsZero(32);
  }

  lemma MaskIsPolyOrZero(d: bv32)
    ensures POLY & (0 - (d & 1)) == if d & 1 == 1 then POLY else 0
  {
  }

  lemma ShiftBits(d: bv32, e: bv32, f: bv32)
    requires e == d >> 1 && f == POLY & (0 - (d & 1))
    ensures LowBits(e ^ f, 32) ==
            Add(LowBits(d, 32)[1..] + [false], if d & 1 == 1 then GENERATOR[1..] else Zeros(32))
  {
    MaskBits(d);
    LowBitsShift(d);
    LowBitsXor(e, f, e ^ f, 32);
  }

  /** Feeding a bit only touches the register's low bit before the shift. */
  lemma FlipLowBit(c: bv32, b: bool, d: bv32)
    requires d == c ^ (if b then 1 else 0)
    ensures LowBits(d, 32)[1..] == LowBits(c, 32)[1..]
    ensures (d & 1 == 1) == (b != LowBits(c, 32)[0])
  {
    LowBitFlip(c, b);
  }

  lemma FeedBitBits(c: bv32, b: bool)
    ensures LowBits(FeedBit(c, b), 32) ==
            Add(LowBits(c, 32)[1..] + [false], if b != LowBits(c, 32)[0] then GENERATOR[1..] else Zeros(32))
  {
    var d := c ^ (if b then 1 else 0);
    FlipLowBit(c, b, d);
    ShiftBits(d, d >> 1, POLY & (0 - (d & 1)));
  }

  /** The message with 32 zeros appended, the register's content added at its front: what is
      still to be divided when the register holds c and m is still to come. */
  function Dividend(c: bv32, m: seq<bool>): (p: Poly)
    ensures |p| == |m| + 32
  {
    Add(m + Zeros(32), LowBits(c, 32) + Zeros(|m|))
  }

  /** Every bit fed is one step of long division. */
  lemma FeedBitReduces(c: bv32, m: seq<bool>)
    requires m != []
    ensures Reduce(Dividend(c, m), GENERATOR) == Dividend(FeedBit(c, m[0]), m[1..])
  {
    FeedBitBits(c, m[0]);
    ReduceDividend(m, LowBits(c, 32), LowBits(FeedBit(c, m[0]), 32), GENERATOR);
  }

  /** The register holds the remainder of everything fed to it so far. */
  lemma {:induction false} RegisterIsRemainder(c: bv32, m: seq<bool>)
    ensures LowBits(FeedBits(c, m), 32) == Remainder(Dividend(c, m), GENERATOR)
    decreases |m|
  {
    if m == [] {
      assert Dividend(c, m) == LowBits(c, 32);
    } else {
      FeedBitReduces(c, m);
      RegisterIsRemainder(FeedBit(c, m[0]), m[1..]);
    }
  }

  /** What IEEE 802.3 divides: the frame's bits with 32 zeros appended and the first 32 bits
      of the result complemented. */
  function FramePolynomial(m: seq<bool>): (p: Poly)
    ensures |p| == |m| + 32
  {
    var padded := m + Zeros(32);
    Complement(padded[..32]) + padded[32..]
  }

  /** The low n bits of x are all set. */
  lemma {:induction false} OnesNibble(x: bv32, n: nat)
    requires n >= 4 && x & 0xF == 0xF && LowBits(x >> 4, n - 4) == Complement(Zeros(n - 4))
    ensures LowBits(x, n) == Complement(Zeros(n))
  {
    LowBitsNibble(x, n);
    assert x & 1 == 1 && x & 2 == 2 && x & 4 == 4 && x & 8 == 8;
  }

  lemma InitIsOnes()
    ensures LowBits(INIT, 32) == Complement(Zeros(32))
  {
    OnesNibble(0xF, 4);
    OnesNibble(0xFF, 8);
    OnesNibble(0xFFF, 12);
    OnesNibble(0xFFFF, 16);
    OnesNibble(0xF_FFFF, 20);
    OnesNibble(0xFF_FFFF, 24);
    OnesNibble(0xFFF_FFFF, 28);
    OnesNibble(0xFFFF_FFFF, 32);
  }

  lemma RegisterIs8023(data: seq<byte>, u: bv32)
    requires u == FeedBits(INIT, BitsOf(data))
    ensures IsRemainder(FramePolynomial(BitsOf(data)), GENERATOR, LowBits(u, 32))
  {
    var m := BitsOf(data);
    RegisterIsRemainder(INIT, m);
    InitIsOnes();
    assert Dividend(INIT, m) == FramePolynomial(m);
    RemainderExact(FramePolynomial(m), GENERATOR, LowBits(u, 32));
  }

  /** The loop computes the CRC-32 of IEEE 802.3: its complement, low bit first, is the
      remainder of the frame polynomial on division by the generator. */
  lemma ChecksumIs8023(data: seq<byte>)
    ensures IsRemainder(FramePolynomial(BitsOf(data)), GENERATOR, LowBits(!Checksum(data), 32))
  {
    var u := Update(INIT, data);
    UpdateIsFeedBits(INIT, data);
    RegisterIs8023(data, u);
    NotNot(u);
  }

  // -------------------------------------------------------------------------------- error bursts

  lemma {:induction false} LowBitsInjective(x: bv32, y: bv32, n: nat)
    requires Fits(x, n) && Fits(y, n) && LowBits(x, n) == LowBits(y, n)
    ensures x == y
    decreases n
  {
    if n > 0 {
      SplitLowBits(x, y, n);
      LowBitsInjective(x >> 1, y >> 1, n - 1);
      WordFromBits(x, y);
    }
  }

  lemma SplitLowBits(x: bv32, y: bv32, n: nat)
    requires n > 0 && LowBits(x, n) == LowBits(y, n)
    ensures LowBits(x >> 1, n - 1) == LowBits(y >> 1, n - 1)
    ensures (x & 1 == 1) == (y & 1 == 1)
  {
    var u, v := LowBits(x, n), LowBits(y, n);
    assert LowBits(x >> 1, n - 1) == u[1..] && LowBits(y >> 1, n - 1) == v[1..];
    assert u[0] == (x & 1 == 1) && v[0] == (y & 1 == 1);
  }

  /** b has no digit at position n or above. */
  predicate Below(b: nat, n: nat)
    decreases n
  {
    if n == 0 then b == 0 else Below(b / 2, n - 1)
  }

  lemma ByteBelow(b: byte)
    ensures Below(b, 8)
  {
    var b1 := b / 2;
    var b2 := b1 / 2;
    var b3 := b2 / 2;
    var b4 := b3 / 2;
    var b5 := b4 / 2;
    var b6 := b5 / 2;
    var b7 := b6 / 2;
    assert b7 / 2 == 0 && Below(b7, 1) && Below(b6, 2) && Below(b5, 3);
    assert Below(b4, 4) && Below(b3, 5) && Below(b2, 6) && Below(b1, 7);
  }

  lemma {:induction false} DigitsInjective(a: nat, b: nat, n: nat)
    requires Below(a, n) && Below(b, n) && Digits(a, n) == Digits(b, n)
    ensures a == b
    decreases n
  {
    if n > 0 {
      assert Digits(a, n)[1..] == Digits(a / 2, n - 1) && Digits(b, n)[1..] == Digits(b / 2, n - 1);
      DigitsInjective(a / 2, b / 2, n - 1);
      assert Digits(a, n)[0] == Digits(b, n)[0];
    }
  }

  lemma {:induction false} BitsOfInjective(f: seq<byte>, g: seq<byte>)
    requires BitsOf(f) == BitsOf(g)
    ensures f == g
  {
    assert |f| == |g|;
    if f != [] {
      assert BitsOf(f)[..8] == Digits(f[0], 8) && BitsOf(g)[..8] == Digits(g[0], 8);
      ByteBelow(f[0]);
      ByteBelow(g[0]);
      DigitsInjective(f[0], g[0], 8);
      assert BitsOf(f)[8..] == BitsOf(f[1..]) && BitsOf(g)[8..] == BitsOf(g[1..]);
      BitsOfInjective(f[1..], g[1..]);
    }
  }

  lemma DividendDifference(c: bv32, v: seq<bool>, w: seq<bool>)
    requires |v| == |w|
    ensures Add(Dividend(c, v), Dividend(c, w)) == Add(v, w) + Zeros(32)
  {
  }

  lemma SameRegister(c: bv32, v: seq<bool>, w: seq<bool>)
    requires |v| == |w|
    ensures FeedBits(c, v) == FeedBits(c, w) <==> Remainder(Add(v, w) + Zeros(32), GENERATOR) == Zeros(32)
  {
    var x, y := FeedBits(c, v), FeedBits(c, w);
    RegisterIsRemainder(c, v);
    RegisterIsRemainder(c, w);
    RemainderLinear(Dividend(c, v), Dividend(c, w), GENERATOR);
    DividendDifference(c, v, w);
    AddIsZero(LowBits(x, 32), LowBits(y, 32));
    if LowBits(x, 32) == LowBits(y, 32) {
      EveryWordFits(x);
      EveryWordFits(y);
      LowBitsInjective(x, y, 32);
    }
  }

  lemma AccumulatorCollision(c: bv32, f: seq<byte>, g: seq<byte>)
    requires |f| == |g|
    ensures Update(c, f) == Update(c, g) <==>
            Remainder(Add(BitsOf(f), BitsOf(g)) + Zeros(32), GENERATOR) == Zeros(32)
  {
    UpdateIsFeedBits(c, f);
    UpdateIsFeedBits(c, g);
    SameRegister(c, BitsOf(f), BitsOf(g));
  }

  lemma ComplementCollision(c: bv32, f: seq<byte>, g: seq<byte>, u: bv32, v: bv32)
    requires u == Update(c, f) && v == Update(c, g) && !u == !v && |f| == |g|
    ensures Remainder(Add(BitsOf(f), BitsOf(g)) + Zeros(32), GENERATOR) == Zeros(32)
  {
    ComplementInjective(u, v);
    AccumulatorCollision(c, f, g);
  }

  /** Two files of one length share a checksum exactly when the generator divides the
      polynomial of the bits in which they differ. */
  lemma CollisionExact(f: seq<byte>, g: seq<byte>)
    requires |f| == |g|
    ensures Checksum(f) == Checksum(g) <==>
            Remainder(Add(BitsOf(f), BitsOf(g)) + Zeros(32), GENERATOR) == Zeros(32)
  {
    if Checksum(f) == Checksum(g) {
      ComplementCollision(INIT, f, g, Update(INIT, f), Update(INIT, g));
    } else {
      AccumulatorCollision(INIT, f, g);
    }
  }

  /** Two files of one length that differ only inside some 32 consecutive bits, wherever they
      lie, never share a checksum. */
  lemma BurstDetected(f: seq<byte>, g: seq<byte>, at: nat, len: nat)
    requires f != g && len <= 32 && AgreeOutside(BitsOf(f), BitsOf(g), at, len)
    ensures Checksum(f) != Checksum(g)
  {
    if BitsOf(f) == BitsOf(g) {
      BitsOfInjective(f, g);
    }
    BurstNotDivisible(BitsOf(f), BitsOf(g), at, len, GENERATOR);
    CollisionExact(f, g);
  }

  lemma {:induction false} BitsOfConcat(a: seq<byte>, b: seq<byte>)
    ensures BitsOf(a + b) == BitsOf(a) + BitsOf(b)
    decreases |a|
  {
    if a == [] {
      assert a + b == b;
    } else {
      assert (a + b)[1..] == a[1..] + b;
      BitsOfConcat(a[1..], b);
    }
  }

  lemma BitsOfMiddle(head: seq<byte>, f: seq<byte>, tail: seq<byte>)
    ensures BitsOf(head + f + tail) == BitsOf(head) + BitsOf(f) + BitsOf(tail)
  {
    BitsOfConcat(head + f, tail);
    BitsOfConcat(head, f);
  }

  /** In bytes: any damage confined to four consecutive bytes is caught. */
  lemma FourByteBurstDetected(head: seq<byte>, f: seq<byte>, g: seq<byte>, tail: seq<byte>)
    requires |f| == |g| <= 4 && f != g
    ensures Checksum(head + f + tail) != Checksum(head + g + tail)
  {
    hide Checksum, BitsOf;
    var p, q, at, len := head + f + tail, head + g + tail, 8 * |head|, 8 * |f|;
    BitsOfMiddle(head, f, tail);
    BitsOfMiddle(head, g, tail);
    assert BitsOf(p)[at + len..] == BitsOf(tail) == BitsOf(q)[at + len..];
    assert p[|head|..|head| + |f|] == f && q[|head|..|head| + |g|] == g;
    BurstDetected(p, q, at, len);
  }
}
