/** The word arithmetic of MD5: the round functions of RFC 1321 and the macros of
    md5.c that stand for them. */
module Md5Words {
  import opened Octets

  type Word = bv32

  function F(x: Word, y: Word, z: Word): Word { (x & y) | (!x & z) }
  function G(x: Word, y: Word, z: Word): Word { (x & z) | (y & !z) }
  function H(x: Word, y: Word, z: Word): Word { x ^ y ^ z }
  function I(x: Word, y: Word, z: Word): Word { y ^ (x | !z) }

  function FF(b: Word, c: Word, d: Word): Word { d ^ (b & (c ^ d)) }
  function FG(b: Word, c: Word, d: Word): Word { FF(d, b, c) }
  function FH(b: Word, c: Word, d: Word): Word { b ^ c ^ d }
  function FI(b: Word, c: Word, d: Word): Word { c ^ (b | !d) }

  /** The macros, of which the first is optimised and the second borrows it, are the
      functions of the four rounds. */
  lemma MacrosAgree(b: Word, c: Word, d: Word)
    ensures FG(b, c, d) == G(b, c, d) && FF(b, c, d) == F(b, c, d)
    ensures FH(b, c, d) == H(b, c, d) && FI(b, c, d) == I(b, c, d)
  {
    assert FF(b, c, d) == F(b, c, d) by {
      hide FG, G, FH, H, FI, I;
      Select(b, c, d);
    }
    assert FG(b, c, d) == G(b, c, d) by {
      hide F, FH, H, FI, I;
      Select(d, b, c);
      Swap(d, b, c);
    }
    assert FI(b, c, d) == I(b, c, d) by { hide FF, FG, F, G, FH, H; }
    hide FF, FG, F, G, FI, I;
  }

  lemma Select(b: Word, c: Word, d: Word)
    ensures d ^ (b & (c ^ d)) == (b & c) | (!b & d)
  {
  }

  lemma Swap(d: Word, b: Word, c: Word)
    ensures (d & b) | (!d & c) == (b & d) | (c & !d)
  {
  }

  /** Additions are modulo 2^32. */
  function Plus(x: Word, y: Word): Word {
    x + y
  }

  lemma PlusCommutes(x: Word, y: Word)
    ensures Plus(x, y) == Plus(y, x)
  {
  }

  /** `X <<< s` of the RFC. */
  function Rotate(w: Word, s: nat): Word
    requires s < 32
  {
    w.RotateLeft(s)
  }

  /** CYCLIC */
  function Cyclic(w: Word, s: nat): Word
    requires 0 < s < 32
  {
    (w << s) | (w >> (32 - s))
  }

  /** The shifts of the four rounds. */
  predicate IsShift(s: nat) {
    s in {7, 12, 17, 22} || s in {5, 9, 14, 20} || s in {4, 11, 16, 23} || s in {6, 10, 15, 21}
  }

  lemma CyclicRotates(w: Word, s: nat)
    requires IsShift(s)
    ensures Cyclic(w, s) == Rotate(w, s)
  {
    hide Cyclic;
    if s in {7, 12, 17, 22} {
      Rotates1(w, s);
    } else if s in {5, 9, 14, 20} {
      Rotates2(w, s);
    } else if s in {4, 11, 16, 23} {
      Rotates3(w, s);
    } else {
      Rotates4(w, s);
    }
  }

  lemma Rotates1(w: Word, s: nat)
    requires s == 7 || s == 12 || s == 17 || s == 22
    ensures Cyclic(w, s) == w.RotateLeft(s)
  {
    if s == 7 {
      assert Cyclic(w, 7) == w.RotateLeft(7);
    } else if s == 12 {
      assert Cyclic(w, 12) == w.RotateLeft(12);
    } else if s == 17 {
      assert Cyclic(w, 17) == w.RotateLeft(17);
    } else {
      assert Cyclic(w, 22) == w.RotateLeft(22);
    }
  }

  lemma Rotates2(w: Word, s: nat)
    requires s == 5 || s == 9 || s == 14 || s == 20
    ensures Cyclic(w, s) == w.RotateLeft(s)
  {
    if s == 5 {
      assert Cyclic(w, 5) == w.RotateLeft(5);
    } else if s == 9 {
      assert Cyclic(w, 9) == w.RotateLeft(9);
    } else if s == 14 {
      assert Cyclic(w, 14) == w.RotateLeft(14);
    } else {
      assert Cyclic(w, 20) == w.RotateLeft(20);
    }
  }

  lemma Rotates3(w: Word, s: nat)
    requires s == 4 || s == 11 || s == 16 || s == 23
    ensures Cyclic(w, s) == w.RotateLeft(s)
  {
    if s == 4 {
      assert Cyclic(w, 4) == w.RotateLeft(4);
    } else if s == 11 {
      assert Cyclic(w, 11) == w.RotateLeft(11);
    } else if s == 16 {
      assert Cyclic(w, 16) == w.RotateLeft(16);
    } else {
      assert Cyclic(w, 23) == w.RotateLeft(23);
    }
  }

  lemma Rotates4(w: Word, s: nat)
    requires s == 6 || s == 10 || s == 15 || s == 21
    ensures Cyclic(w, s) == w.RotateLeft(s)
  {
    if s == 6 {
      assert Cyclic(w, 6) == w.RotateLeft(6);
    } else if s == 10 {
      assert Cyclic(w, 10) == w.RotateLeft(10);
    } else if s == 15 {
      assert Cyclic(w, 15) == w.RotateLeft(15);
    } else {
      assert Cyclic(w, 21) == w.RotateLeft(21);
    }
  }

  // ---- The bytes of a word, low-order byte first ----

  function Bits(b: Byte): bv8 {
    b as bv8
  }

  function ByteOf(w: Word): Byte {
    ((w & 0xff) as bv8) as Byte
  }

  function FourBytes(b0: bv8, b1: bv8, b2: bv8, b3: bv8): Word {
    (b0 as Word) | ((b1 as Word) << 8) | ((b2 as Word) << 16) | ((b3 as Word) << 24)
  }

  function Number(w: Word): nat {
    w as nat
  }

  lemma NumberOfBytes(b0: Byte, b1: Byte, b2: Byte, b3: Byte)
    ensures
      Number(FourBytes(Bits(b0), Bits(b1), Bits(b2), Bits(b3))) ==
        b0 as nat + 0x100 * b1 as nat + 0x1_0000 * b2 as nat + 0x100_0000 * b3 as nat
  {
    BitsSum(Bits(b0), Bits(b1), Bits(b2), Bits(b3));
    ByteNumber(b0);
    ByteNumber(b1);
    ByteNumber(b2);
    ByteNumber(b3);
    hide Bits, Number, Number8, FourBytes;
  }

  function Number8(b: bv8): nat {
    b as nat
  }

  lemma BitsSum(b0: bv8, b1: bv8, b2: bv8, b3: bv8)
    ensures
      Number(FourBytes(b0, b1, b2, b3)) ==
        Number8(b0) + 0x100 * Number8(b1) + 0x1_0000 * Number8(b2) + 0x100_0000 * Number8(b3)
  {
    PlainSum(b0, b1, b2, b3);
  }

  lemma PlainSum(b0: bv8, b1: bv8, b2: bv8, b3: bv8)
    ensures
      ((b0 as bv32) | ((b1 as bv32) << 8) | ((b2 as bv32) << 16) | ((b3 as bv32) << 24)) as nat ==
        b0 as nat + 0x100 * b1 as nat + 0x1_0000 * b2 as nat + 0x100_0000 * b3 as nat
  {
  }

  lemma ByteNumber(b: Byte)
    ensures Number8(Bits(b)) == b as nat && (Bits(b) as Byte) == b
  {
    SmallNumber(b as nat);
  }

  lemma BitsOfByte(b: bv8)
    ensures Bits(b as Byte) == b
  {
  }

  lemma ApartAndTogether(w: Word)
    ensures FourBytes(Bits(ByteOf(w)), Bits(ByteOf(w >> 8)), Bits(ByteOf(w >> 16)), Bits(ByteOf(w >> 24))) == w
  {
    var (b0, b1, b2, b3) :=
      ((w & 0xff) as bv8, ((w >> 8) & 0xff) as bv8, ((w >> 16) & 0xff) as bv8, ((w >> 24) & 0xff) as bv8);
    BitsOfByte(b0);
    BitsOfByte(b1);
    BitsOfByte(b2);
    BitsOfByte(b3);
    hide Bits;
  }

  lemma TogetherAndApart(b0: Byte, b1: Byte, b2: Byte, b3: Byte)
    ensures
      var w := FourBytes(Bits(b0), Bits(b1), Bits(b2), Bits(b3));
      ByteOf(w) == b0 && ByteOf(w >> 8) == b1 && ByteOf(w >> 16) == b2 && ByteOf(w >> 24) == b3
  {
    TakeApart(Bits(b0), Bits(b1), Bits(b2), Bits(b3));
    ByteNumber(b0);
    ByteNumber(b1);
    ByteNumber(b2);
    ByteNumber(b3);
    hide Bits, FourBytes;
  }

  lemma TakeApart(b0: bv8, b1: bv8, b2: bv8, b3: bv8)
    ensures
      var w := FourBytes(b0, b1, b2, b3);
      && (w & 0xff) as bv8 == b0 && ((w >> 8) & 0xff) as bv8 == b1
      && ((w >> 16) & 0xff) as bv8 == b2 && ((w >> 24) & 0xff) as bv8 == b3
  {
  }
}
