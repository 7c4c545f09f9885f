/** The 32-bit words of AES as the four bytes that pack and unpack lay out in them, least significant
    first. Every shift and rotation in the cipher is by whole bytes; the lemmas about Pack say what
    the operations here are on the 32-bit word itself. */
module AesWord {
  type byte = bv8

  datatype Word = Word(b0: byte, b1: byte, b2: byte, b3: byte)

  /** Exclusive or of two bytes. */
  function X(a: byte, b: byte): byte {
    a ^ b
  }

  function Xor(x: Word, y: Word): Word {
    Word(X(x.b0, y.b0), X(x.b1, y.b1), X(x.b2, y.b2), X(x.b3, y.b3))
  }

  function Rotl8(x: Word): Word {
    Word(x.b3, x.b0, x.b1, x.b2)
  }

  function Rotl16(x: Word): Word {
    Word(x.b2, x.b3, x.b0, x.b1)
  }

  function Rotl24(x: Word): Word {
    Word(x.b1, x.b2, x.b3, x.b0)
  }

  /** Multiplication by x in the field of section 4.2 of FIPS 197. */
  function Times2(a: byte): byte {
    if a < 0x80 then a << 1 else (a << 1) ^ 0x1b
  }

  /** The 32-bit word that pack assembles from four bytes. */
  function Pack(b0: byte, b1: byte, b2: byte, b3: byte): bv32 {
    ((b3 as bv32) << 24) | ((b2 as bv32) << 16) | ((b1 as bv32) << 8) | (b0 as bv32)
  }

  function Packed(x: Word): bv32 {
    Pack(x.b0, x.b1, x.b2, x.b3)
  }

  /** The four bytes that unpack and MR_TOBYTE take out of a word. */
  function Unpacked(w: bv32): Word {
    Word((w & 0xff) as byte, ((w >> 8) & 0xff) as byte, ((w >> 16) & 0xff) as byte, (w >> 24) as byte)
  }

  lemma UnpackedPacked(x: Word)
    ensures Unpacked(Packed(x)) == x
  {
  }

  lemma PackXor(a0: byte, a1: byte, a2: byte, a3: byte, b0: byte, b1: byte, b2: byte, b3: byte)
    ensures Pack(X(a0, b0), X(a1, b1), X(a2, b2), X(a3, b3)) == Pack(a0, a1, a2, a3) ^ Pack(b0, b1, b2, b3)
  {
  }

  lemma PackRotl8(b0: byte, b1: byte, b2: byte, b3: byte)
    ensures Pack(b3, b0, b1, b2) == (Pack(b0, b1, b2, b3) << 8) | (Pack(b0, b1, b2, b3) >> 24)
  {
  }

  lemma PackRotl16(b0: byte, b1: byte, b2: byte, b3: byte)
    ensures Pack(b2, b3, b0, b1) == (Pack(b0, b1, b2, b3) << 16) | (Pack(b0, b1, b2, b3) >> 16)
  {
  }

  lemma PackRotl24(b0: byte, b1: byte, b2: byte, b3: byte)
    ensures Pack(b1, b2, b3, b0) == (Pack(b0, b1, b2, b3) << 24) | (Pack(b0, b1, b2, b3) >> 8)
  {
  }

  lemma ByteCancel(x: byte, y: byte)
    ensures X(X(x, y), y) == x && X(x, 0) == x && X(x, y) == X(y, x)
  {
  }

  lemma ByteAssoc(a: byte, b: byte, c: byte)
    ensures X(X(a, b), c) == X(a, X(b, c))
  {
  }

  lemma Swap(a: byte, b: byte, c: byte, d: byte)
    ensures X(X(a, b), X(c, d)) == X(X(a, c), X(b, d))
  {
    ByteCancel(b, c);
    ByteAssoc(a, b, X(c, d));
    ByteAssoc(b, c, d);
    ByteAssoc(c, b, d);
    ByteAssoc(a, c, X(b, d));
    hide X;
  }

  /** Exclusive ors of four pairs, regrouped. */
  lemma Regroup(a: byte, b: byte, c: byte, d: byte, e: byte, f: byte, g: byte, h: byte)
    ensures X(X(X(X(a, b), X(c, d)), X(e, f)), X(g, h)) == X(X(X(X(a, c), e), g), X(X(X(b, d), f), h))
  {
    hide X;
    Swap(a, b, c, d);
    Swap(X(a, c), X(b, d), e, f);
    Swap(X(X(a, c), e), X(X(b, d), f), g, h);
  }

  lemma XorAssoc(x: Word, y: Word, z: Word)
    ensures Xor(Xor(x, y), z) == Xor(x, Xor(y, z))
  {
    ByteAssoc(x.b0, y.b0, z.b0);
    ByteAssoc(x.b1, y.b1, z.b1);
    ByteAssoc(x.b2, y.b2, z.b2);
    ByteAssoc(x.b3, y.b3, z.b3);
    hide X;
  }

  lemma XorCancel(x: Word, y: Word)
    ensures Xor(Xor(x, y), y) == x
  {
    ByteCancel(x.b0, y.b0);
    ByteCancel(x.b1, y.b1);
    ByteCancel(x.b2, y.b2);
    ByteCancel(x.b3, y.b3);
    hide X;
  }
}
