/** The table-driven block functions are the cipher and the inverse cipher of FIPS 197. */
module AesConforms {
  import opened AesWord
  import opened AesField
  import opened AesCipher
  import opened Aes
  import Std = AesStandard

  // ---------------------------------------------------------------- words as bytes

  /** Byte r of a word, the least significant first. */
  function ByteAt(x: Word, r: nat): byte
    requires r < 4
  {
    if r == 0 then x.b0 else if r == 1 then x.b1 else if r == 2 then x.b2 else x.b3
  }

  /** The bytes of a schedule, word by word. */
  function KeyBytes(keys: seq<Word>): (w: seq<byte>)
    ensures |w| == 4 * |keys|
  {
    seq(4 * |keys|, i requires 0 <= i < 4 * |keys| => ByteAt(keys[i / 4], i % 4))
  }

  lemma KeyByte(keys: seq<Word>, i: nat, r: nat)
    requires i < |keys| && r < 4
    ensures 4 * i + r < 4 * |keys| && KeyBytes(keys)[4 * i + r] == ByteAt(keys[i], r)
  {
    assert (4 * i + r) / 4 == i && (4 * i + r) % 4 == r;
  }

  lemma KeyColumn(keys: seq<Word>, i: nat, n: nat)
    requires i < |keys| && n == 4 * i
    ensures n + 4 <= 4 * |keys| && HoldsWord(KeyBytes(keys), n, keys[i])
  {
    KeyByte(keys, i, 0);
    KeyByte(keys, i, 1);
    KeyByte(keys, i, 2);
    KeyByte(keys, i, 3);
    hide KeyBytes;
  }

  /** The bytes of a word, from place n on. */
  predicate HoldsWord(b: seq<byte>, n: nat, x: Word) {
    n + 4 <= |b| && b[n] == x.b0 && b[n + 1] == x.b1 && b[n + 2] == x.b2 && b[n + 3] == x.b3
  }

  /** The bytes of a state, column by column. */
  predicate HoldsFrom(b: seq<byte>, n: nat, s: State) {
    HoldsWord(b, n, s.c0) && HoldsWord(b, n + 4, s.c1) && HoldsWord(b, n + 8, s.c2) && HoldsWord(b, n + 12, s.c3)
  }

  predicate Holds(b: seq<byte>, s: State) {
    |b| == 16 && HoldsFrom(b, 0, s)
  }

  lemma HoldsBytes(b: seq<byte>, s: State)
    ensures Holds(b, s) <==> b == BytesOf(s)
  {
  }

  // ---------------------------------------------------------------- the steps

  lemma AddedAt(s: seq<byte>, w: seq<byte>, i: nat, j: nat, a: byte, b: byte)
    requires |s| == 16 && 16 * i + 16 <= |w| && j < 16 && s[j] == a && w[16 * i + j] == b
    ensures Std.AddRoundKey(s, w, i)[j] == X(a, b)
  {
  }

  lemma AddedColumn(x: Word, k: Word, s: seq<byte>, w: seq<byte>, i: nat, j: nat)
    requires |s| == 16 && 16 * i + 16 <= |w| && j <= 12 && HoldsWord(s, j, x) && HoldsWord(w, 16 * i + j, k)
    ensures HoldsWord(Std.AddRoundKey(s, w, i), j, Xor(x, k))
  {
    hide X, Std.AddRoundKey;
    AddedAt(s, w, i, j, x.b0, k.b0);
    AddedAt(s, w, i, j + 1, x.b1, k.b1);
    AddedAt(s, w, i, j + 2, x.b2, k.b2);
    AddedAt(s, w, i, j + 3, x.b3, k.b3);
  }

  lemma AddedHolds(b: seq<byte>, s: State, w: seq<byte>, i: nat, k: State)
    requires Holds(b, s) && 16 * i + 16 <= |w| && HoldsFrom(w, 16 * i, k)
    ensures Holds(Std.AddRoundKey(b, w, i), AddKey(s, k))
  {
    hide Std.AddRoundKey, Xor, HoldsWord;
    AddedColumn(s.c0, k.c0, b, w, i, 0);
    AddedColumn(s.c1, k.c1, b, w, i, 4);
    AddedColumn(s.c2, k.c2, b, w, i, 8);
    AddedColumn(s.c3, k.c3, b, w, i, 12);
  }

  lemma KeyHolds(keys: seq<Word>, i: nat)
    requires 4 * i + 4 <= |keys|
    ensures HoldsFrom(KeyBytes(keys), 16 * i, Key(keys, i))
  {
    hide KeyBytes, HoldsWord;
    KeyColumn(keys, 4 * i, 16 * i);
    KeyColumn(keys, 4 * i + 1, 16 * i + 4);
    KeyColumn(keys, 4 * i + 2, 16 * i + 8);
    KeyColumn(keys, 4 * i + 3, 16 * i + 12);
  }

  lemma AddKeyBytes(s: State, keys: seq<Word>, i: nat)
    requires 4 * i + 4 <= |keys|
    ensures BytesOf(AddKey(s, Key(keys, i))) == Std.AddRoundKey(BytesOf(s), KeyBytes(keys), i)
  {
    hide BytesOf, KeyBytes, Std.AddRoundKey, AddKey, Key, Holds;
    HoldsBytes(BytesOf(s), s);
    KeyHolds(keys, i);
    AddedHolds(BytesOf(s), s, KeyBytes(keys), i, Key(keys, i));
    HoldsBytes(Std.AddRoundKey(BytesOf(s), KeyBytes(keys), i), AddKey(s, Key(keys, i)));
  }

  lemma ShiftedAt(b: seq<byte>)
    requires |b| == 16
    ensures var r := Std.ShiftRows(b);
            && r[0] == b[0] && r[1] == b[5] && r[2] == b[10] && r[3] == b[15]
            && r[4] == b[4] && r[5] == b[9] && r[6] == b[14] && r[7] == b[3]
            && r[8] == b[8] && r[9] == b[13] && r[10] == b[2] && r[11] == b[7]
            && r[12] == b[12] && r[13] == b[1] && r[14] == b[6] && r[15] == b[11]
  {
  }

  lemma ShiftedBackAt(b: seq<byte>)
    requires |b| == 16
    ensures var r := Std.InvShiftRows(b);
            && r[0] == b[0] && r[1] == b[13] && r[2] == b[10] && r[3] == b[7]
            && r[4] == b[4] && r[5] == b[1] && r[6] == b[14] && r[7] == b[11]
            && r[8] == b[8] && r[9] == b[5] && r[10] == b[2] && r[11] == b[15]
            && r[12] == b[12] && r[13] == b[9] && r[14] == b[6] && r[15] == b[3]
  {
  }

  lemma SubBytesHolds(S: byte -> byte, b: seq<byte>, s: State)
    requires Holds(b, s)
    ensures Holds(Std.SubBytes(S, b), MapState(S, s))
  {
  }

  lemma ShiftHolds(b: seq<byte>, s: State)
    requires Holds(b, s)
    ensures Holds(Std.ShiftRows(b), ShiftRows(s))
  {
    hide Std.ShiftRows;
    ShiftedAt(b);
  }

  lemma ShiftBytes(s: State)
    ensures Std.ShiftRows(BytesOf(s)) == BytesOf(ShiftRows(s))
  {
    hide BytesOf, Std.ShiftRows, ShiftRows, Holds;
    HoldsBytes(BytesOf(s), s);
    ShiftHolds(BytesOf(s), s);
    HoldsBytes(Std.ShiftRows(BytesOf(s)), ShiftRows(s));
  }

  lemma SubBytesOf(S: byte -> byte, s: State)
    ensures Std.SubBytes(S, BytesOf(s)) == BytesOf(MapState(S, s))
  {
    hide BytesOf, Std.SubBytes, MapState, Holds;
    HoldsBytes(BytesOf(s), s);
    SubBytesHolds(S, BytesOf(s), s);
    HoldsBytes(Std.SubBytes(S, BytesOf(s)), MapState(S, s));
  }

  lemma ScrambleBytes(t: Tables, s: State)
    ensures BytesOf(Scramble(t, s)) == Std.ShiftRows(Std.SubBytes(t.fbsub, BytesOf(s)))
  {
    hide BytesOf, Std.SubBytes, Std.ShiftRows, MapState, ShiftRows;
    SubBytesOf(t.fbsub, s);
    ShiftBytes(MapState(t.fbsub, s));
  }

  lemma UnshiftHolds(b: seq<byte>, s: State)
    requires Holds(b, s)
    ensures Holds(Std.InvShiftRows(b), InvShiftRows(s))
  {
    hide Std.InvShiftRows;
    ShiftedBackAt(b);
  }

  lemma UnshiftBytes(s: State)
    ensures Std.InvShiftRows(BytesOf(s)) == BytesOf(InvShiftRows(s))
  {
    hide BytesOf, Std.InvShiftRows, InvShiftRows, Holds;
    HoldsBytes(BytesOf(s), s);
    UnshiftHolds(BytesOf(s), s);
    HoldsBytes(Std.InvShiftRows(BytesOf(s)), InvShiftRows(s));
  }

  lemma SubUnshifted(S: byte -> byte, s: State)
    ensures MapState(S, InvShiftRows(s)) == InvShiftRows(MapState(S, s))
  {
  }

  lemma UnscrambleBytes(t: Tables, s: State)
    ensures BytesOf(Unscramble(t, s)) == Std.SubBytes(t.rbsub, Std.InvShiftRows(BytesOf(s)))
  {
    UnshiftBytes(s);
    SubUnshifted(t.rbsub, s);
    var r := InvShiftRows(s);
    hide BytesOf, Std.SubBytes, Std.InvShiftRows, MapState, InvShiftRows;
    SubBytesOf(t.rbsub, r);
  }

  /** bmul by the coefficients of MixColumns and of its inverse is the product in the field. */
  ghost predicate FieldProducts(t: Tables) {
    forall y: byte :: FieldProductsOf(t, y)
  }

  ghost predicate FieldProductsOf(t: Tables, y: byte) {
    && t.Mul(0x2, y) == Times(0x2, y) && t.Mul(0x3, y) == Times(0x3, y) && t.Mul(0x9, y) == Times(0x9, y)
    && t.Mul(0xB, y) == Times(0xB, y) && t.Mul(0xD, y) == Times(0xD, y) && t.Mul(0xE, y) == Times(0xE, y)
  }

  lemma TimesOne(y: byte)
    ensures Times(1, y) == y
  {
  }

  lemma TurnOnce(a: byte, b: byte, c: byte, d: byte)
    ensures Std.Sum(a, b, c, d) == Std.Sum(b, c, d, a) == X(X(X(a, b), c), d)
  {
    ByteCancel(a, X(X(b, c), d));
    ByteAssoc(a, X(b, c), d);
    ByteAssoc(a, b, c);
    SumOf(a, b, c, d);
    SumOf(b, c, d, a);
    hide X, Std.Sum;
  }

  lemma SumOf(a: byte, b: byte, c: byte, d: byte)
    ensures Std.Sum(a, b, c, d) == X(X(X(a, b), c), d)
  {
  }

  lemma Turn(a: byte, b: byte, c: byte, d: byte)
    ensures X(X(X(a, b), c), d) == Std.Sum(a, b, c, d)
    ensures Std.Sum(a, b, c, d) == Std.Sum(b, c, d, a) == Std.Sum(c, d, a, b) == Std.Sum(d, a, b, c)
  {
    TurnOnce(a, b, c, d);
    TurnOnce(b, c, d, a);
    TurnOnce(c, d, a, b);
    hide X, Std.Sum;
  }

  lemma MixAt(a: byte, b: byte, c: byte, d: byte, s: seq<byte>, i: nat, p: nat, q: nat, r: nat, x: byte, y: byte,
      z: byte, w: byte)
    requires |s| == 16 && i < 16 && Std.Below(i, 1) == p && Std.Below(i, 2) == q && Std.Below(i, 3) == r
    requires s[i] == x && s[p] == y && s[q] == z && s[r] == w
    ensures Std.Mix(a, b, c, d, s)[i] == Std.Sum(Times(a, x), Times(b, y), Times(c, z), Times(d, w))
  {
    hide Times, Std.Sum, Std.Below;
  }

  lemma BelowRow(j: nat, r: nat, d: nat)
    requires j < 16 && j % 4 == 0 && r < 4 && d < 4
    ensures j + r < 16 && Std.Below(j + r, d) == j + if r + d < 4 then r + d else r + d - 4
  {
    assert (j + r) / 4 == j / 4 && (j + r) % 4 == r;
  }

  lemma BelowColumn(j: nat, r: nat)
    requires j < 16 && j % 4 == 0 && r < 4
    ensures j + 3 < 16
    ensures Std.Below(j + r, 1) == j + if r < 3 then r + 1 else r - 3
    ensures Std.Below(j + r, 2) == j + if r < 2 then r + 2 else r - 2
    ensures Std.Below(j + r, 3) == j + if r < 1 then r + 3 else r - 1
  {
    BelowRow(j, r, 1);
    BelowRow(j, r, 2);
    BelowRow(j, r, 3);
    hide Std.Below;
  }

  /** A column mixed with coefficients a, b, c and d. */
  function MixedColumn(a: byte, b: byte, c: byte, d: byte, x: Word): Word {
    Word(Std.Sum(Times(a, x.b0), Times(b, x.b1), Times(c, x.b2), Times(d, x.b3)),
         Std.Sum(Times(a, x.b1), Times(b, x.b2), Times(c, x.b3), Times(d, x.b0)),
         Std.Sum(Times(a, x.b2), Times(b, x.b3), Times(c, x.b0), Times(d, x.b1)),
         Std.Sum(Times(a, x.b3), Times(b, x.b0), Times(c, x.b1), Times(d, x.b2)))
  }

  lemma MixRow(a: byte, b: byte, c: byte, d: byte, s: seq<byte>, j: nat, r: nat, p: nat, q: nat, t: nat, x: byte,
      y: byte, z: byte, w: byte)
    requires |s| == 16 && j % 4 == 0 && r < 4 && j + 3 < 16
    requires p == j + (if r < 3 then r + 1 else r - 3) && q == j + (if r < 2 then r + 2 else r - 2)
      && t == j + (if r < 1 then r + 3 else r - 1)
    requires s[j + r] == x && s[p] == y && s[q] == z && s[t] == w
    ensures Std.Mix(a, b, c, d, s)[j + r] == Std.Sum(Times(a, x), Times(b, y), Times(c, z), Times(d, w))
  {
    BelowColumn(j, r);
    hide Times, Std.Sum, Std.Mix, Std.Below;
    MixAt(a, b, c, d, s, j + r, p, q, t, x, y, z, w);
  }

  lemma MixColumnAt(a: byte, b: byte, c: byte, d: byte, s: seq<byte>, j: nat, x: Word)
    requires |s| == 16 && j < 16 && j % 4 == 0 && HoldsWord(s, j, x)
    ensures HoldsWord(Std.Mix(a, b, c, d, s), j, MixedColumn(a, b, c, d, x))
  {
    hide Times, Std.Sum, Std.Mix;
    MixRow(a, b, c, d, s, j, 0, j + 1, j + 2, j + 3, x.b0, x.b1, x.b2, x.b3);
    MixRow(a, b, c, d, s, j, 1, j + 2, j + 3, j, x.b1, x.b2, x.b3, x.b0);
    MixRow(a, b, c, d, s, j, 2, j + 3, j, j + 1, x.b2, x.b3, x.b0, x.b1);
    MixRow(a, b, c, d, s, j, 3, j, j + 1, j + 2, x.b3, x.b0, x.b1, x.b2);
  }

  lemma MixHolds(a: byte, b: byte, c: byte, d: byte, s: State)
    ensures Std.Mix(a, b, c, d, BytesOf(s))
         == BytesOf(State(MixedColumn(a, b, c, d, s.c0), MixedColumn(a, b, c, d, s.c1), MixedColumn(a, b, c, d, s.c2),
                          MixedColumn(a, b, c, d, s.c3)))
  {
    var r := State(MixedColumn(a, b, c, d, s.c0), MixedColumn(a, b, c, d, s.c1), MixedColumn(a, b, c, d, s.c2),
                   MixedColumn(a, b, c, d, s.c3));
    HoldsBytes(BytesOf(s), s);
    hide BytesOf, Std.Mix, MixedColumn, HoldsWord;
    MixColumnAt(a, b, c, d, BytesOf(s), 0, s.c0);
    MixColumnAt(a, b, c, d, BytesOf(s), 4, s.c1);
    MixColumnAt(a, b, c, d, BytesOf(s), 8, s.c2);
    MixColumnAt(a, b, c, d, BytesOf(s), 12, s.c3);
    HoldsBytes(Std.Mix(a, b, c, d, BytesOf(s)), r);
  }

  lemma MixColumn(t: Tables, x: Word)
    requires FieldProducts(t)
    ensures t.MixCol(x) == MixedColumn(2, 3, 1, 1, x)
  {
    assert FieldProductsOf(t, x.b0) && FieldProductsOf(t, x.b1) && FieldProductsOf(t, x.b2) && FieldProductsOf(t, x.b3);
    TimesOne(x.b0);
    TimesOne(x.b1);
    TimesOne(x.b2);
    TimesOne(x.b3);
    hide X, Times, Tables.Mul, FieldProducts, Std.Sum;
    Turn(Times(2, x.b0), Times(3, x.b1), x.b2, x.b3);
    Turn(x.b0, Times(2, x.b1), Times(3, x.b2), x.b3);
    Turn(x.b0, x.b1, Times(2, x.b2), Times(3, x.b3));
    Turn(Times(3, x.b0), x.b1, x.b2, Times(2, x.b3));
  }

  lemma UnmixColumn(t: Tables, x: Word)
    requires FieldProducts(t)
    ensures t.InvMixCol(x) == MixedColumn(0xe, 0xb, 0xd, 0x9, x)
  {
    assert FieldProductsOf(t, x.b0) && FieldProductsOf(t, x.b1) && FieldProductsOf(t, x.b2) && FieldProductsOf(t, x.b3);
    hide X, Times, Tables.Mul, FieldProducts, Std.Sum;
    Turn(Times(0xe, x.b0), Times(0xb, x.b1), Times(0xd, x.b2), Times(0x9, x.b3));
    Turn(Times(0x9, x.b0), Times(0xe, x.b1), Times(0xb, x.b2), Times(0xd, x.b3));
    Turn(Times(0xd, x.b0), Times(0x9, x.b1), Times(0xe, x.b2), Times(0xb, x.b3));
    Turn(Times(0xb, x.b0), Times(0xd, x.b1), Times(0x9, x.b2), Times(0xe, x.b3));
  }

  lemma MixBytes(t: Tables, s: State)
    requires FieldProducts(t)
    ensures BytesOf(MixColumns(t, s)) == Std.MixColumns(BytesOf(s))
  {
    hide Tables.MixCol, FieldProducts, Std.Mix, BytesOf, MixedColumn;
    MixColumn(t, s.c0);
    MixColumn(t, s.c1);
    MixColumn(t, s.c2);
    MixColumn(t, s.c3);
    MixHolds(2, 3, 1, 1, s);
  }

  lemma UnmixBytes(t: Tables, s: State)
    requires FieldProducts(t)
    ensures BytesOf(InvMixColumns(t, s)) == Std.InvMixColumns(BytesOf(s))
  {
    hide Tables.InvMixCol, FieldProducts, Std.Mix, BytesOf, MixedColumn;
    UnmixColumn(t, s.c0);
    UnmixColumn(t, s.c1);
    UnmixColumn(t, s.c2);
    UnmixColumn(t, s.c3);
    MixHolds(0xe, 0xb, 0xd, 0x9, s);
  }

  // ---------------------------------------------------------------- the cipher

  lemma {:induction false} RoundsConform(t: Tables, keys: seq<Word>, s: State, i: nat)
    requires FieldProducts(t) && 4 * i + 4 <= |keys|
    ensures BytesOf(Rounds(t, keys, s, i)) == Std.Rounds(t.fbsub, KeyBytes(keys), BytesOf(s), i)
    decreases i
  {
    hide FieldProducts, BytesOf, KeyBytes, AddKey, Key, MixColumns, Scramble, Std.AddRoundKey, Std.MixColumns,
        Std.ShiftRows,
      Std.SubBytes;
    if i == 0 {
      AddKeyBytes(s, keys, 0);
    } else {
      RoundsConform(t, keys, s, i - 1);
      var before := Rounds(t, keys, s, i - 1);
      ScrambleBytes(t, before);
      MixBytes(t, Scramble(t, before));
      AddKeyBytes(MixColumns(t, Scramble(t, before)), keys, i);
    }
  }

  lemma EncipherLast(t: Tables, keys: seq<Word>, nr: nat, b: seq<byte>)
    requires nr >= 1 && 4 * nr + 4 <= |keys| && |b| == 16
    ensures Encipher(t, keys, nr, b) == BytesOf(AddKey(Scramble(t, Rounds(t, keys, Block(b), nr - 1)), Key(keys, nr)))
  {
    hide BytesOf, Block, AddKey, Scramble, Key, Rounds;
  }

  lemma DecipherLast(t: Tables, keys: seq<Word>, nr: nat, b: seq<byte>)
    requires nr >= 1 && 4 * nr + 4 <= |keys| && |b| == 16
    ensures Decipher(t, keys, nr, b)
         == BytesOf(AddKey(Unscramble(t, InvRounds(t, keys, Block(b), nr - 1)), Key(keys, nr)))
  {
    hide BytesOf, Block, AddKey, Unscramble, Key, InvRounds;
  }

  lemma LastRound(t: Tables, keys: seq<Word>, i: nat, s: State)
    requires 4 * i + 4 <= |keys|
    ensures BytesOf(AddKey(Scramble(t, s), Key(keys, i)))
         == Std.AddRoundKey(Std.ShiftRows(Std.SubBytes(t.fbsub, BytesOf(s))), KeyBytes(keys), i)
  {
    hide *;
    ScrambleBytes(t, s);
    AddKeyBytes(Scramble(t, s), keys, i);
  }

  lemma LastInvRound(t: Tables, keys: seq<Word>, s: State)
    requires 4 <= |keys|
    ensures BytesOf(AddKey(Unscramble(t, s), Key(keys, 0)))
         == Std.AddRoundKey(Std.SubBytes(t.rbsub, Std.InvShiftRows(BytesOf(s))), KeyBytes(keys), 0)
  {
    hide *;
    UnscrambleBytes(t, s);
    AddKeyBytes(Unscramble(t, s), keys, 0);
  }

  /** The cipher by words is the cipher of section 5.1 of FIPS 197 by bytes, for any number of rounds. */
  lemma EncipherConforms(t: Tables, keys: seq<Word>, nr: nat, b: seq<byte>)
    requires FieldProducts(t) && nr >= 1 && 4 * nr + 4 <= |keys| && |b| == 16
    ensures Encipher(t, keys, nr, b) == Std.Cipher(t.fbsub, KeyBytes(keys), nr, b)
  {
    var s, i := Block(b), nr - 1;
    BytesBlock(b);
    EncipherLast(t, keys, nr, b);
    hide FieldProducts, BytesOf, Block, KeyBytes, AddKey, Key, Scramble, Rounds, Encipher, Std.AddRoundKey,
        Std.ShiftRows,
      Std.SubBytes, Std.Rounds;
    RoundsConform(t, keys, s, i);
    LastRound(t, keys, nr, Rounds(t, keys, s, i));
  }

  /** One round of the equivalent inverse cipher, with the key through InvMixColumns, is one of the inverse cipher. */
  lemma InvRoundBytes(t: Tables, keys: seq<Word>, s: State, i: nat)
    requires FieldProducts(t) && t.Linear() && 4 * i + 4 <= |keys|
    ensures BytesOf(InvRound(t, s, InvMixColumns(t, Key(keys, i))))
         == Std.InvMixColumns(Std.AddRoundKey(Std.SubBytes(t.rbsub, Std.InvShiftRows(BytesOf(s))), KeyBytes(keys), i))
  {
    hide FieldProducts, Tables.Linear, BytesOf, KeyBytes, AddKey, Key, InvMixColumns, Unscramble, Std.AddRoundKey,
      Std.InvMixColumns, Std.InvShiftRows, Std.SubBytes;
    UnscrambleBytes(t, s);
    InvMixKey(t, Unscramble(t, s), Key(keys, i));
    AddKeyBytes(Unscramble(t, s), keys, i);
    UnmixBytes(t, AddKey(Unscramble(t, s), Key(keys, i)));
  }

  lemma {:induction false} InvRoundsConform(t: Tables, fkey: seq<Word>, rkey: seq<Word>, nr: nat, s: State, i: nat)
    requires FieldProducts(t) && t.Linear() && i < nr && 4 * nr + 4 <= |fkey| && 4 * nr + 4 <= |rkey|
      && ReversedKeys(t, fkey, rkey, nr)
    ensures BytesOf(InvRounds(t, rkey, s, i)) == Std.InvRounds(t.rbsub, KeyBytes(fkey), nr, BytesOf(s), i)
    decreases i
  {
    hide FieldProducts, Tables.Linear, BytesOf, KeyBytes, AddKey, Key, InvMixColumns, InvRound, Std.AddRoundKey,
      Std.InvMixColumns, Std.InvShiftRows, Std.SubBytes;
    if i == 0 {
      AddKeyBytes(s, fkey, nr);
    } else {
      InvRoundsConform(t, fkey, rkey, nr, s, i - 1);
      InvRoundBytes(t, fkey, InvRounds(t, rkey, s, i - 1), nr - i);
    }
  }

  /** The equivalent inverse cipher with the reversed schedule is the inverse cipher of section 5.3. */
  lemma DecipherConforms(t: Tables, fkey: seq<Word>, rkey: seq<Word>, nr: nat, c: seq<byte>)
    requires FieldProducts(t) && t.Linear() && nr >= 1 && 4 * nr + 4 <= |fkey| && 4 * nr + 4 <= |rkey| && |c| == 16
    requires ReversedKeys(t, fkey, rkey, nr)
    ensures Decipher(t, rkey, nr, c) == Std.InvCipher(t.rbsub, KeyBytes(fkey), nr, c)
  {
    var s, i := Block(c), nr - 1;
    BytesBlock(c);
    DecipherLast(t, rkey, nr, c);
    assert Key(rkey, nr) == Key(fkey, 0);
    hide FieldProducts, Tables.Linear, BytesOf, Block, KeyBytes, AddKey, Key, Unscramble, InvMixColumns, InvRounds,
        Decipher,
      Std.AddRoundKey, Std.InvShiftRows, Std.SubBytes, Std.InvRounds, ReversedKeys;
    InvRoundsConform(t, fkey, rkey, nr, s, i);
    LastInvRound(t, fkey, InvRounds(t, rkey, s, i));
  }

  // ---------------------------------------------------------------- the key expansion

  lemma TimesTwo(y: byte)
    ensures Times(2, y) == Times2(y)
  {
  }

  lemma {:induction false} RoundConstant(i: nat)
    requires 1 <= i <= 16
    ensures Std.Rcon(i) == RCO[i - 1]
    decreases i
  {
    if i > 1 {
      RoundConstant(i - 1);
      RoundConstants(i - 2);
      TimesTwo(RCO[i - 2]);
    }
    hide Times, Times2;
  }

  lemma XorByte(x: Word, y: Word, r: nat)
    requires r < 4
    ensures ByteAt(Xor(x, y), r) == X(ByteAt(x, r), ByteAt(y, r))
  {
    hide X;
  }

  lemma SubstitutedByte(t: Tables, x: Word, r: nat)
    requires r < 4
    ensures ByteAt(SubByte(t, x), r) == t.fbsub(ByteAt(x, r))
    ensures ByteAt(Rotl24(x), r) == ByteAt(x, (r + 1) % 4)
  {
  }

  lemma KeyWordByte(key: seq<byte>, nk: nat, i: nat, r: nat)
    requires 4 * nk <= |key| && i < nk && r < 4
    ensures ByteAt(CipherKey(key, nk)[i], r) == key[4 * i + r]
  {
  }

  lemma ConstantByte(x: byte, c: byte, r: nat)
    requires r < 4
    ensures X(x, ByteAt(Word(c, 0, 0, 0), r)) == X(x, if r == 0 then c else 0)
  {
  }

  lemma RotatedByte(t: Tables, x: Word, c: byte, r: nat)
    requires r < 4
    ensures ByteAt(Xor(SubByte(t, Rotl24(x)), Word(c, 0, 0, 0)), r)
         == X(t.fbsub(ByteAt(x, (r + 1) % 4)), if r == 0 then c else 0)
  {
    SubstitutedByte(t, x, r);
    SubstitutedByte(t, Rotl24(x), r);
    XorByte(SubByte(t, Rotl24(x)), Word(c, 0, 0, 0), r);
    ConstantByte(t.fbsub(ByteAt(Rotl24(x), r)), c, r);
    hide X, ByteAt, SubByte, Rotl24, Xor;
  }

  /** The byte that the standard expands, from the three bytes it uses. */
  function Recurring(S: byte -> byte, nk: nat, i: nat, r: nat, a: byte, p: byte, q: byte): byte
    requires KeyWords(nk) && nk <= i
  {
    X(a, if i % nk == 0 then X(S(p), if r == 0 then Std.Rcon(i / nk) else 0)
         else if nk == 8 && i % nk == 4 then S(q)
         else q)
  }

  lemma StandardByte(S: byte -> byte, key: seq<byte>, nk: nat, w: seq<byte>, i: nat, r: nat, a: byte, p: byte, q: byte)
    requires KeyWords(nk) && 4 * nk <= |key| && nk <= i && 4 * i <= |w| && r < 4
    requires w[4 * (i - nk) + r] == a && w[4 * (i - 1) + (r + 1) % 4] == p && w[4 * (i - 1) + r] == q
    ensures Std.ExpandedByte(S, key, nk, w, i, r) == Recurring(S, nk, i, r, a, p, q)
  {
    hide X, Std.Rcon;
  }

  lemma WordByte(t: Tables, key: seq<Word>, nk: nat, keys: seq<Word>, i: nat, r: nat, x: Word, y: Word)
    requires KeyWords(nk) && |key| == nk && nk <= i < 60 && i <= |keys| && r < 4
    requires x == keys[i - nk] && y == keys[i - 1]
    ensures ByteAt(Expanded(t, key, keys, i), r)
         == Recurring(t.fbsub, nk, i, r, ByteAt(x, r), ByteAt(y, (r + 1) % 4), ByteAt(y, r))
  {
    RecurrenceAt(t, key, nk, keys, i);
    hide X, ByteAt, SubByte, Rotl24, Std.Rcon, Xor, Expanded, RCO;
    if i % nk == 0 {
      RoundConstant(i / nk);
      RotatedByte(t, y, RCO[i / nk - 1], r);
      XorByte(x, Xor(SubByte(t, Rotl24(y)), Word(RCO[i / nk - 1], 0, 0, 0)), r);
    } else if nk == 8 && i % nk == 4 {
      SubstitutedByte(t, y, r);
      XorByte(x, SubByte(t, y), r);
    } else {
      XorByte(x, y, r);
    }
  }

  /** What the word recurrence makes of the bytes before is what the standard says. */
  lemma ExpandedConforms(t: Tables, key: seq<byte>, nk: nat, keys: seq<Word>, i: nat, r: nat)
    requires KeyWords(nk) && 4 * nk <= |key| && i < 60 && i <= |keys| && r < 4
    ensures ByteAt(Expanded(t, CipherKey(key, nk), keys, i), r)
         == Std.ExpandedByte(t.fbsub, key, nk, KeyBytes(keys), i, r)
  {
    hide X, ByteAt, CipherKey, KeyBytes, Recurring;
    if i < nk {
      KeyWordByte(key, nk, i, r);
    } else {
      hide Expanded, Std.ExpandedByte;
      var x, y := keys[i - nk], keys[i - 1];
      KeyByte(keys, i - nk, r);
      KeyByte(keys, i - 1, r);
      KeyByte(keys, i - 1, (r + 1) % 4);
      StandardByte(t.fbsub, key, nk, KeyBytes(keys), i, r, ByteAt(x, r), ByteAt(y, (r + 1) % 4), ByteAt(y, r));
      WordByte(t, CipherKey(key, nk), nk, keys, i, r, x, y);
    }
  }

  /** The expanded key, as bytes, is the expansion of section 5.2. */
  lemma ScheduleConforms(t: Tables, key: seq<byte>, nk: nat, keys: seq<Word>)
    requires KeyWords(nk) && 4 * nk <= |key| && |keys| == 4 * nk + 28
      && Schedule(t, CipherKey(key, nk), keys, 4 * nk + 28)
    ensures Std.IsExpansion(t.fbsub, key, nk, nk + 6, KeyBytes(keys))
  {
    var w := KeyBytes(keys);
    hide KeyBytes, Expanded, Std.ExpandedByte, CipherKey, ByteAt;
    forall i, r | 0 <= i < 4 * (nk + 6) + 4 && 0 <= r < 4
      ensures w[4 * i + r] == Std.ExpandedByte(t.fbsub, key, nk, w, i, r)
    {
      KeyByte(keys, i, r);
      ExpandedConforms(t, key, nk, keys, i, r);
    }
  }
}
