/** The AES rounds as mathematics, over any S-box pair and mix tables with the right facts: the cipher,
    the equivalent inverse cipher, and that the second undoes the first. */
module AesCipher {
  import opened AesWord

  // ---------------------------------------------------------------- tables

  /** The sum of two bytes modulo 255; it does not overflow an int, nor the sixteen bits it is given
      here. */
  function LogSum(l: byte, r: byte): byte {
    (((l as bv16) + (r as bv16)) % 255) as bv8
  }

  /** The constant tables, as functions of the index byte. */
  datatype Tables = Tables(
    fbsub: byte -> byte,
    rbsub: byte -> byte,
    ftable: byte -> Word,
    rtable: byte -> Word,
    ptab: byte -> byte,
    ltab: byte -> byte)
  {
    /** bmul: a product by adding logarithms. */
    function Mul(x: byte, y: byte): byte {
      if x != 0 && y != 0 then ptab(LogSum(ltab(x), ltab(y))) else 0
    }

    /** The dot product of two words of bytes. */
    function Dot(x: Word, y: Word): byte {
      X(X(X(Mul(x.b0, y.b0), Mul(x.b1, y.b1)), Mul(x.b2, y.b2)), Mul(x.b3, y.b3))
    }

    /** InvMixCol: the four rows are rotations of the packed coefficients. */
    function InvMixCol(x: Word): Word {
      var m3 := Word(0xB, 0xD, 0x9, 0xE);
      var m2 := Rotl24(m3);
      var m1 := Rotl24(m2);
      var m0 := Rotl24(m1);
      Word(Dot(m0, x), Dot(m1, x), Dot(m2, x), Dot(m3, x))
    }

    /** MixColumns on one column (section 5.1.3 of FIPS 197). */
    function MixCol(x: Word): Word {
      Word(X(X(X(Mul(2, x.b0), Mul(3, x.b1)), x.b2), x.b3),
           X(X(X(x.b0, Mul(2, x.b1)), Mul(3, x.b2)), x.b3),
           X(X(X(x.b0, x.b1), Mul(2, x.b2)), Mul(3, x.b3)),
           X(X(X(Mul(3, x.b0), x.b1), x.b2), Mul(2, x.b3)))
    }

    /** rbsub undoes fbsub. */
    ghost predicate Inverse() {
      forall b: byte :: rbsub(fbsub(b)) == b
    }

    /** Each table holds the mixed column of a substituted byte. */
    ghost predicate Mixed() {
      && (forall b: byte :: ftable(b) == Word(Mul(2, fbsub(b)), fbsub(b), fbsub(b), Mul(3, fbsub(b))))
      && (forall b: byte ::
            rtable(b) == Word(Mul(0xE, rbsub(b)), Mul(0x9, rbsub(b)), Mul(0xD, rbsub(b)), Mul(0xB, rbsub(b))))
    }

    /** The products with the coefficients of InvMixCol distribute over exclusive or. */
    ghost predicate Linear() {
      LinearIn(0x9) && LinearIn(0xB) && LinearIn(0xD) && LinearIn(0xE)
    }

    ghost predicate LinearIn(c: byte) {
      forall x: byte, y: byte :: Mul(c, X(x, y)) == X(Mul(c, x), Mul(c, y))
    }

    /** InvMixCol undoes MixColumns. */
    ghost predicate Unmixes() {
      forall x: Word :: InvMixCol(MixCol(x)) == x
    }

    ghost predicate Facts() {
      Inverse() && Mixed() && Linear() && Unmixes()
    }
  }

  lemma MulLinear(t: Tables, c: byte, x: byte, y: byte)
    requires t.LinearIn(c)
    ensures t.Mul(c, X(x, y)) == X(t.Mul(c, x), t.Mul(c, y))
  {
  }

  lemma DotLinear(t: Tables, m: Word, x: Word, y: Word)
    requires t.LinearIn(m.b0) && t.LinearIn(m.b1) && t.LinearIn(m.b2) && t.LinearIn(m.b3)
    ensures t.Dot(m, Xor(x, y)) == X(t.Dot(m, x), t.Dot(m, y))
  {
    MulLinear(t, m.b0, x.b0, y.b0);
    MulLinear(t, m.b1, x.b1, y.b1);
    MulLinear(t, m.b2, x.b2, y.b2);
    MulLinear(t, m.b3, x.b3, y.b3);
    hide Tables.Mul, Tables.LinearIn, X;
    Regroup(t.Mul(m.b0, x.b0), t.Mul(m.b0, y.b0), t.Mul(m.b1, x.b1), t.Mul(m.b1, y.b1),
            t.Mul(m.b2, x.b2), t.Mul(m.b2, y.b2), t.Mul(m.b3, x.b3), t.Mul(m.b3, y.b3));
  }

  lemma InvMixLinear(t: Tables, x: Word, y: Word)
    requires t.Linear()
    ensures t.InvMixCol(Xor(x, y)) == Xor(t.InvMixCol(x), t.InvMixCol(y))
  {
    hide Tables.LinearIn, X;
    var m3 := Word(0xB, 0xD, 0x9, 0xE);
    DotLinear(t, m3, x, y);
    DotLinear(t, Rotl24(m3), x, y);
    DotLinear(t, Rotl24(Rotl24(m3)), x, y);
    DotLinear(t, Rotl24(Rotl24(Rotl24(m3))), x, y);
    hide Tables.Dot;
  }

  // ---------------------------------------------------------------- states

  /** The state: four columns. */
  datatype State = State(c0: Word, c1: Word, c2: Word, c3: Word)

  function AddKey(s: State, k: State): State {
    State(Xor(s.c0, k.c0), Xor(s.c1, k.c1), Xor(s.c2, k.c2), Xor(s.c3, k.c3))
  }

  function MapBytes(f: byte -> byte, x: Word): Word {
    Word(f(x.b0), f(x.b1), f(x.b2), f(x.b3))
  }

  function MapState(f: byte -> byte, s: State): State {
    State(MapBytes(f, s.c0), MapBytes(f, s.c1), MapBytes(f, s.c2), MapBytes(f, s.c3))
  }

  /** Row r of column c comes from column c+r. */
  function ShiftRows(s: State): State {
    State(Word(s.c0.b0, s.c1.b1, s.c2.b2, s.c3.b3), Word(s.c1.b0, s.c2.b1, s.c3.b2, s.c0.b3),
          Word(s.c2.b0, s.c3.b1, s.c0.b2, s.c1.b3), Word(s.c3.b0, s.c0.b1, s.c1.b2, s.c2.b3))
  }

  /** Row r of column c comes from column c-r. */
  function InvShiftRows(s: State): State {
    State(Word(s.c0.b0, s.c3.b1, s.c2.b2, s.c1.b3), Word(s.c1.b0, s.c0.b1, s.c3.b2, s.c2.b3),
          Word(s.c2.b0, s.c1.b1, s.c0.b2, s.c3.b3), Word(s.c3.b0, s.c2.b1, s.c1.b2, s.c0.b3))
  }

  function MixColumns(t: Tables, s: State): State {
    State(t.MixCol(s.c0), t.MixCol(s.c1), t.MixCol(s.c2), t.MixCol(s.c3))
  }

  function InvMixColumns(t: Tables, s: State): State {
    State(t.InvMixCol(s.c0), t.InvMixCol(s.c1), t.InvMixCol(s.c2), t.InvMixCol(s.c3))
  }

  /** Key i of a schedule. */
  function Key(keys: seq<Word>, i: nat): State
    requires 4 * i + 4 <= |keys|
  {
    State(keys[4 * i], keys[4 * i + 1], keys[4 * i + 2], keys[4 * i + 3])
  }

  // ---------------------------------------------------------------- the ciphers

  /** SubBytes, then ShiftRows. */
  function Scramble(t: Tables, s: State): State {
    ShiftRows(MapState(t.fbsub, s))
  }

  function Unscramble(t: Tables, s: State): State {
    InvShiftRows(MapState(t.rbsub, s))
  }

  function Round(t: Tables, s: State, k: State): State {
    AddKey(MixColumns(t, Scramble(t, s)), k)
  }

  function InvRound(t: Tables, s: State, k: State): State {
    AddKey(InvMixColumns(t, Unscramble(t, s)), k)
  }

  /** The state after the first key and i full rounds. */
  function Rounds(t: Tables, keys: seq<Word>, s: State, i: nat): State
    requires 4 * i + 4 <= |keys|
  {
    if i == 0 then AddKey(s, Key(keys, 0)) else Round(t, Rounds(t, keys, s, i - 1), Key(keys, i))
  }

  function InvRounds(t: Tables, keys: seq<Word>, s: State, i: nat): State
    requires 4 * i + 4 <= |keys|
  {
    if i == 0 then AddKey(s, Key(keys, 0)) else InvRound(t, InvRounds(t, keys, s, i - 1), Key(keys, i))
  }

  /** Cipher (section 5.1 of FIPS 197) */
  function Cipher(t: Tables, keys: seq<Word>, nr: nat, s: State): State
    requires nr >= 1 && 4 * nr + 4 <= |keys|
  {
    AddKey(Scramble(t, Rounds(t, keys, s, nr - 1)), Key(keys, nr))
  }

  /** The equivalent inverse cipher (section 5.3.5 of FIPS 197) */
  function InvCipher(t: Tables, keys: seq<Word>, nr: nat, s: State): State
    requires nr >= 1 && 4 * nr + 4 <= |keys|
  {
    AddKey(Unscramble(t, InvRounds(t, keys, s, nr - 1)), Key(keys, nr))
  }

  /** The decryption schedule: the keys in reverse order, those between the first and the last passed
      through InvMixColumns. */
  ghost predicate ReversedKeys(t: Tables, fkey: seq<Word>, rkey: seq<Word>, nr: nat)
    requires 4 * nr + 4 <= |fkey| && 4 * nr + 4 <= |rkey|
  {
    && Key(rkey, 0) == Key(fkey, nr) && Key(rkey, nr) == Key(fkey, 0)
    && forall i :: 0 < i < nr ==> Key(rkey, i) == InvMixColumns(t, Key(fkey, nr - i))
  }

  // ---------------------------------------------------------------- decryption undoes encryption

  lemma AddKeyCancel(s: State, k: State)
    ensures AddKey(AddKey(s, k), k) == s
  {
    XorCancel(s.c0, k.c0);
    XorCancel(s.c1, k.c1);
    XorCancel(s.c2, k.c2);
    XorCancel(s.c3, k.c3);
  }

  lemma UnscrambleScramble(t: Tables, s: State)
    requires t.Inverse()
    ensures Unscramble(t, Scramble(t, s)) == s
  {
  }

  lemma UnmixColumns(t: Tables, s: State)
    requires t.Unmixes()
    ensures InvMixColumns(t, MixColumns(t, s)) == s
  {
    hide Tables.MixCol, Tables.InvMixCol;
  }

  lemma InvMixKey(t: Tables, s: State, k: State)
    requires t.Linear()
    ensures InvMixColumns(t, AddKey(s, k)) == AddKey(InvMixColumns(t, s), InvMixColumns(t, k))
  {
    InvMixLinear(t, s.c0, k.c0);
    InvMixLinear(t, s.c1, k.c1);
    InvMixLinear(t, s.c2, k.c2);
    InvMixLinear(t, s.c3, k.c3);
    hide Tables.InvMixCol, Xor, Tables.Linear;
  }

  /** One inverse round, with the transformed key, turns scrambled round i into scrambled round i-1. */
  lemma InvRoundUndoes(t: Tables, s: State, k: State)
    requires t.Facts()
    ensures InvRound(t, Scramble(t, Round(t, s, k)), InvMixColumns(t, k)) == Scramble(t, s)
  {
    hide Tables.Inverse, Tables.Linear, Tables.Unmixes, Tables.Mixed;
    UnscrambleScramble(t, Round(t, s, k));
    var m := MixColumns(t, Scramble(t, s));
    assert Round(t, s, k) == AddKey(m, k);
    InvMixKey(t, m, k);
    UnmixColumns(t, Scramble(t, s));
    AddKeyCancel(Scramble(t, s), InvMixColumns(t, k));
  }

  /** After i inverse rounds the state is the scrambled state of round nr-1-i. */
  lemma {:induction false} InvRoundsUndo(t: Tables, fkey: seq<Word>, rkey: seq<Word>, nr: nat, s: State, i: nat)
    requires t.Facts() && 4 * nr + 4 <= |fkey| && 4 * nr + 4 <= |rkey| && ReversedKeys(t, fkey, rkey, nr) && i < nr
    ensures InvRounds(t, rkey, Cipher(t, fkey, nr, s), i) == Scramble(t, Rounds(t, fkey, s, nr - 1 - i))
    decreases i
  {
    hide X, Scramble, Tables.Facts, InvMixColumns, MixColumns, AddKey;
    if i == 0 {
      AddKeyCancel(Scramble(t, Rounds(t, fkey, s, nr - 1)), Key(fkey, nr));
    } else {
      InvRoundsUndo(t, fkey, rkey, nr, s, i - 1);
      var before := Rounds(t, fkey, s, nr - 1 - i);
      assert Rounds(t, fkey, s, nr - i) == Round(t, before, Key(fkey, nr - i));
      assert Key(rkey, i) == InvMixColumns(t, Key(fkey, nr - i));
      hide Key;
      InvRoundUndoes(t, before, Key(fkey, nr - i));
    }
  }

  /** Decryption undoes encryption, for every key schedule, every block and any number of rounds. */
  lemma DecryptionUndoes(t: Tables, fkey: seq<Word>, rkey: seq<Word>, nr: nat, s: State)
    requires t.Facts() && nr >= 1 && 4 * nr + 4 <= |fkey| && 4 * nr + 4 <= |rkey| && ReversedKeys(t, fkey, rkey, nr)
    ensures InvCipher(t, rkey, nr, Cipher(t, fkey, nr, s)) == s
  {
    hide Unscramble, Scramble, AddKey, Tables.Inverse, Tables.Linear, Tables.Unmixes, Tables.Mixed;
    InvRoundsUndo(t, fkey, rkey, nr, s, nr - 1);
    UnscrambleScramble(t, Rounds(t, fkey, s, 0));
    AddKeyCancel(s, Key(fkey, 0));
  }
}
