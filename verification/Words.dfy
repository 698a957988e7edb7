/** Facts about single 32-bit words. */
module Words {

  lemma XorBits(x: bv32, y: bv32)
    ensures (x ^ y) >> 1 == (x >> 1) ^ (y >> 1)
    ensures ((x ^ y) & 1 == 1) == ((x & 1 == 1) != (y & 1 == 1))
  {
  }

  lemma NibbleBits(x: bv32)
    ensures ((x >> 1) & 1 == 1) == (x & 2 == 2) && ((x >> 2) & 1 == 1) == (x & 4 == 4)
    ensures ((x >> 3) & 1 == 1) == (x & 8 == 8)
    ensures (x >> 1) >> 1 == x >> 2 && (x >> 2) >> 1 == x >> 3 && (x >> 3) >> 1 == x >> 4
  {
  }

  lemma LowBitFlip(c: bv32, b: bool)
    ensures (c ^ (if b then 1 else 0)) >> 1 == c >> 1
    ensures ((c ^ (if b then 1 else 0)) & 1 == 1) == (b != (c & 1 == 1))
  {
  }

  lemma LowBitIsBit(x: bv32)
    ensures x & 1 == 0 || x & 1 == 1
  {
  }

  /** Flipping c's low bit by that of x is as much of xor-ing x in as the next shift sees. */
  lemma LowBitXor(c: bv32, x: bv32, d: bv32, e: bv32)
    requires d == c ^ (if x & 1 == 1 then 1 else 0) && e == c ^ x
    ensures d & 1 == e & 1
    ensures e >> 1 == (d >> 1) ^ (x >> 1)
  {
    XorBits(c, x);
    LowBitFlip(c, x & 1 == 1);
    LowBitIsBit(d);
    LowBitIsBit(e);
  }

  lemma XorSwap(x: bv32, y: bv32, z: bv32)
    ensures (x ^ y) ^ z == (x ^ z) ^ y
  {
  }

  lemma WordFromBits(x: bv32, y: bv32)
    requires x >> 1 == y >> 1 && (x & 1 == 1) == (y & 1 == 1)
    ensures x == y
  {
  }

  lemma NotNot(x: bv32)
    ensures !!x == x
  {
  }

  lemma ComplementInjective(x: bv32, y: bv32)
    requires !x == !y
    ensures x == y
  {
  }

  function Push(y: bv32, b: bool): bv32 {
    (y << 1) | (if b then 1 else 0)
  }

  lemma PushBit(y: bv32, b: bool)
    requires y >> 8 == 0
    ensures Push(y, b) >> 1 == y
    ensures (Push(y, b) & 1 == 1) == b
  {
  }
}
