/** The exclusive or of bytes, and the laws the checksum rests on. */
module ByteXor {
  import opened Blocks

  function XorByte(a: Byte, b: Byte): (c: Byte) { ((a as bv8) ^ (b as bv8)) as int }

  // ---------- bytes as eight bits ----------

  lemma SameBits(x: bv8, y: bv8)
    requires x as int == y as int
    ensures x == y
  {}

  lemma ThereAndBack(a: Byte)
    ensures (a as bv8) as int == a
  {}

  lemma BackAndThere(x: bv8)
    ensures (x as int) as bv8 == x
  {
    var a: Byte := x as int;
    ThereAndBack(a);
    SameBits(x, a as bv8);
  }

  lemma XorOf(a: Byte, b: Byte, x: bv8, y: bv8)
    requires a as bv8 == x && b as bv8 == y
    ensures XorByte(a, b) == (x ^ y) as int && XorByte(a, b) as bv8 == x ^ y
  {
    BackAndThere(x ^ y);
  }

  // ---------- its laws ----------

  lemma XorZero(a: Byte)
    ensures XorByte(a, 0) == XorByte(0, a) == a && XorByte(a, a) == 0
  {
    ThereAndBack(a);
    var x: bv8 := a as bv8;
    assert x ^ 0 == 0 ^ x == x && x ^ x == 0;
  }

  lemma Associates(x: bv8, y: bv8, z: bv8)
    ensures (x ^ y) ^ z == x ^ (y ^ z) && x ^ y == y ^ x
  {}

  lemma XorShuffle(a: Byte, b: Byte, c: Byte)
    ensures XorByte(XorByte(a, b), c) == XorByte(a, XorByte(b, c)) && XorByte(a, b) == XorByte(b, a)
  {
    hide XorByte;
    var x: bv8, y: bv8, z: bv8 := a as bv8, b as bv8, c as bv8;
    Associates(x, y, z);
    XorLeft(a, b, c, x, y, z);
    XorRight(a, b, c, x, y, z);
    XorOf(a, b, x, y);
    XorOf(b, a, y, x);
  }

  lemma XorLeft(a: Byte, b: Byte, c: Byte, x: bv8, y: bv8, z: bv8)
    requires a as bv8 == x && b as bv8 == y && c as bv8 == z
    ensures XorByte(XorByte(a, b), c) == ((x ^ y) ^ z) as int
  {
    hide XorByte;
    XorOf(a, b, x, y);
    XorOf(XorByte(a, b), c, x ^ y, z);
  }

  lemma XorRight(a: Byte, b: Byte, c: Byte, x: bv8, y: bv8, z: bv8)
    requires a as bv8 == x && b as bv8 == y && c as bv8 == z
    ensures XorByte(a, XorByte(b, c)) == (x ^ (y ^ z)) as int
  {
    hide XorByte;
    XorOf(b, c, y, z);
    XorOf(a, XorByte(b, c), x, y ^ z);
  }

  lemma XorCancels(a: Byte, b: Byte, c: Byte)
    ensures XorByte(a, c) == XorByte(XorByte(a, b), XorByte(b, c))
  {
    hide XorByte;
    XorShuffle(a, b, XorByte(b, c));
    XorShuffle(b, b, c);
    XorZero(b);
    XorZero(c);
    XorShuffle(0, c, c);
  }

  lemma XorMoves(a: Byte, b: Byte, c: Byte)
    requires b != c
    ensures XorByte(a, XorByte(b, c)) != a
  {
    hide XorByte;
    if XorByte(a, XorByte(b, c)) == a {
      var d := XorByte(b, c);
      XorShuffle(a, a, d);
      XorZero(a);
      XorZero(d);
      assert XorByte(0, d) == 0;
      XorShuffle(b, b, c);
      XorZero(b);
      XorZero(c);
      assert false;
    }
  }
}
