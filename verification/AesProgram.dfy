/** The program with its own tables is AES: key expansion, cipher and inverse cipher are those of FIPS 197, for
    any S-box that the definition of the standard admits. */
module AesProgram {
  import opened AesWord
  import opened AesField
  import opened AesCipher
  import opened Aes
  import opened AesModes
  import opened AesConforms
  import opened AesTables
  import Std = AesStandard

  // ---------------------------------------------------------------- the S-box as a function

  predicate SameAt(S: byte -> byte, T: byte -> byte, b: byte) {
    S(b) == T(b)
  }

  ghost predicate Same(S: byte -> byte, T: byte -> byte) {
    forall b: byte :: SameAt(S, T, b)
  }

  lemma SubBytesSame(S: byte -> byte, T: byte -> byte, s: seq<byte>)
    requires Same(S, T) && |s| == 16
    ensures Std.SubBytes(S, s) == Std.SubBytes(T, s)
  {
    forall i | 0 <= i < 16 ensures Std.SubBytes(S, s)[i] == Std.SubBytes(T, s)[i] {
      assert SameAt(S, T, s[i]);
    }
  }

  lemma CipherSame(S: byte -> byte, T: byte -> byte, w: seq<byte>, nr: nat, s: seq<byte>)
    requires Same(S, T) && |s| == 16 && nr >= 1 && 16 * nr + 16 <= |w|
    ensures Std.Cipher(S, w, nr, s) == Std.Cipher(T, w, nr, s)
  {
    hide Same, Std.SubBytes, Std.ShiftRows, Std.AddRoundKey, Std.Rounds;
    var i := nr - 1;
    RoundsSame(S, T, w, s, i);
    SubBytesSame(S, T, Std.Rounds(S, w, s, i));
  }

  lemma {:induction false} RoundsSame(S: byte -> byte, T: byte -> byte, w: seq<byte>, s: seq<byte>, i: nat)
    requires Same(S, T) && |s| == 16 && 16 * i + 16 <= |w|
    ensures Std.Rounds(S, w, s, i) == Std.Rounds(T, w, s, i)
    decreases i
  {
    hide Same, Std.SubBytes, Std.ShiftRows, Std.MixColumns, Std.AddRoundKey;
    if i > 0 {
      RoundsSame(S, T, w, s, i - 1);
      SubBytesSame(S, T, Std.Rounds(S, w, s, i - 1));
    }
  }

  lemma InvCipherSame(S: byte -> byte, T: byte -> byte, w: seq<byte>, nr: nat, s: seq<byte>)
    requires Same(S, T) && |s| == 16 && nr >= 1 && 16 * nr + 16 <= |w|
    ensures Std.InvCipher(S, w, nr, s) == Std.InvCipher(T, w, nr, s)
  {
    hide Same, Std.SubBytes, Std.InvShiftRows, Std.AddRoundKey, Std.InvRounds;
    var i := nr - 1;
    InvRoundsSame(S, T, w, nr, s, i);
    SubBytesSame(S, T, Std.InvShiftRows(Std.InvRounds(S, w, nr, s, i)));
  }

  lemma {:induction false} InvRoundsSame(S: byte -> byte, T: byte -> byte, w: seq<byte>, nr: nat, s: seq<byte>, i: nat)
    requires Same(S, T) && |s| == 16 && i <= nr && 16 * nr + 16 <= |w|
    ensures Std.InvRounds(S, w, nr, s, i) == Std.InvRounds(T, w, nr, s, i)
    decreases i
  {
    hide Same, Std.SubBytes, Std.InvShiftRows, Std.InvMixColumns, Std.AddRoundKey;
    if i > 0 {
      InvRoundsSame(S, T, w, nr, s, i - 1);
      SubBytesSame(S, T, Std.InvShiftRows(Std.InvRounds(S, w, nr, s, i - 1)));
    }
  }

  /** There is one expansion of a key. */
  lemma {:induction false} ExpansionUnique(S: byte -> byte, T: byte -> byte, key: seq<byte>, nk: nat, nr: nat,
      v: seq<byte>, w: seq<byte>, i: nat)
    requires Same(S, T) && nk >= 1 && 4 * nk <= |key| && i <= 4 * nr + 4
    requires Std.IsExpansion(S, key, nk, nr, v) && Std.IsExpansion(T, key, nk, nr, w)
    ensures v[..4 * i] == w[..4 * i]
    decreases i
  {
    if i > 0 {
      ExpansionUnique(S, T, key, nk, nr, v, w, i - 1);
      SameByte(S, T, key, nk, nr, v, w, i - 1, 0);
      SameByte(S, T, key, nk, nr, v, w, i - 1, 1);
      SameByte(S, T, key, nk, nr, v, w, i - 1, 2);
      SameByte(S, T, key, nk, nr, v, w, i - 1, 3);
      hide *;
      OneWordMore(v, w, i - 1);
    }
  }

  lemma OneWordMore(v: seq<byte>, w: seq<byte>, i: nat)
    requires 4 * i + 4 <= |v| == |w| && v[..4 * i] == w[..4 * i]
    requires var n := 4 * i; v[n] == w[n] && v[n + 1] == w[n + 1] && v[n + 2] == w[n + 2] && v[n + 3] == w[n + 3]
    ensures v[..4 * (i + 1)] == w[..4 * (i + 1)]
  {
    var n := 4 * i;
    assert v[..n + 4] == v[..n] + [v[n], v[n + 1], v[n + 2], v[n + 3]];
    assert w[..n + 4] == w[..n] + [w[n], w[n + 1], w[n + 2], w[n + 3]];
  }

  lemma SameByte(S: byte -> byte, T: byte -> byte, key: seq<byte>, nk: nat, nr: nat, v: seq<byte>, w: seq<byte>, i: nat,
      r: nat)
    requires Same(S, T) && nk >= 1 && 4 * nk <= |key| && i < 4 * nr + 4 && r < 4
    requires Std.IsExpansion(S, key, nk, nr, v) && Std.IsExpansion(T, key, nk, nr, w) && v[..4 * i] == w[..4 * i]
    ensures v[4 * i + r] == w[4 * i + r]
  {
    assert v[4 * i + r] == Std.ExpandedByte(S, key, nk, v, i, r);
    assert w[4 * i + r] == Std.ExpandedByte(T, key, nk, w, i, r);
    assert forall j :: 0 <= j < 4 * i ==> v[j] == v[..4 * i][j] == w[..4 * i][j] == w[j];
    if i >= nk {
      assert SameAt(S, T, v[4 * (i - 1) + (r + 1) % 4]) && SameAt(S, T, v[4 * (i - 1) + r]);
    }
    hide X, Std.Rcon;
  }

  // ---------------------------------------------------------------- the program

  lemma ProgramProducts()
    ensures FieldProducts(Constants())
  {
    hide Constants, FieldProductsOf;
    forall y: byte ensures FieldProductsOf(Constants(), y) {
      ConstantsMul(y);
      ProductsAre(y);
    }
  }

  lemma ProductsAre(y: byte)
    ensures FieldProductsOf(Constants(), y)
  {
    ConstantsMul(y);
    hide Constants, Tables.Mul, Times;
  }

  lemma ProgramSBox(S: byte -> byte)
    requires IsSBox(S)
    ensures Same(Constants().fbsub, S)
  {
    ConstantsSBox();
    hide IsSBox, Constants;
    forall b: byte ensures SameAt(Constants().fbsub, S, b) {
      SBoxUnique(Constants().fbsub, S, b);
    }
  }

  predicate UndoesAt(R: byte -> byte, S: byte -> byte, b: byte) {
    R(S(b)) == b
  }

  /** R undoes the S-box. */
  ghost predicate Undoes(R: byte -> byte, S: byte -> byte) {
    forall b: byte :: UndoesAt(R, S, b)
  }

  lemma InverseEntryIs(F: byte -> byte, S: byte -> byte, R: byte -> byte, b: byte, x: byte)
    requires Same(F, S) && Undoes(R, S) && F(x) == b
    ensures x == R(b)
  {
    assert SameAt(F, S, x) && UndoesAt(R, S, x);
  }

  lemma ProgramInverseSBox(S: byte -> byte, R: byte -> byte)
    requires IsSBox(S) && Undoes(R, S)
    ensures Same(Constants().rbsub, R)
  {
    ProgramSBox(S);
    hide IsSBox, Constants, Undoes;
    forall b: byte ensures SameAt(Constants().rbsub, R, b) {
      ConstantsUndone(b);
      InverseEntryIs(Constants().fbsub, S, R, b, Constants().rbsub(b));
    }
  }

  /** The schedule that AES_init leaves, as bytes, is the expansion of the key. */
  lemma ProgramExpansion(S: byte -> byte, key: seq<byte>, nk: nat, w: seq<byte>)
    requires IsSBox(S) && KeyWords(nk) && 4 * nk <= |key| && Std.IsExpansion(S, key, nk, nk + 6, w)
    ensures KeyBytes(KeysFor(Constants(), key, nk).fkey) == w
  {
    var t := Constants();
    var words := Expansion(t, CipherKey(key, nk), 4 * nk + 28);
    ExpansionFollows(t, CipherKey(key, nk), 4 * nk + 28);
    ScheduleConforms(t, key, nk, words);
    ProgramSBox(S);
    var v := KeyBytes(words);
    ExpansionUnique(t.fbsub, S, key, nk, nk + 6, v, w, 4 * (nk + 6) + 4);
    assert v[..16 * (nk + 6) + 16] == v && w[..16 * (nk + 6) + 16] == w;
    hide KeyBytes, Expansion, CipherKey, Constants, Std.IsExpansion, Schedule, IsSBox;
  }

  /** The tables of the program and the schedule that AES_init leaves are such an S-box, its inverse and such an
      expansion. */
  lemma ProgramStandard(key: seq<byte>, nk: nat)
    requires KeyWords(nk) && 4 * nk <= |key|
    ensures IsSBox(Constants().fbsub) && Undoes(Constants().rbsub, Constants().fbsub)
    ensures Std.IsExpansion(Constants().fbsub, key, nk, nk + 6, KeyBytes(KeysFor(Constants(), key, nk).fkey))
  {
    var t := Constants();
    ConstantsSBox();
    ConstantsInverse();
    hide Constants, IsSBox, Expansion, CipherKey, KeyBytes, Schedule, Reversal, Std.IsExpansion;
    forall b: byte ensures UndoesAt(t.rbsub, t.fbsub, b) {
    }
    ExpansionFollows(t, CipherKey(key, nk), 4 * nk + 28);
    ScheduleConforms(t, key, nk, Expansion(t, CipherKey(key, nk), 4 * nk + 28));
  }

  /** Under every key, AES_ecb_encrypt after AES_init is the cipher of section 5.1 with the expansion of section 5.2. */
  lemma ProgramEnciphers(S: byte -> byte, key: seq<byte>, nk: nat, w: seq<byte>, b: seq<byte>)
    requires IsSBox(S) && KeyWords(nk) && 4 * nk <= |key| && |b| == 16 && Std.IsExpansion(S, key, nk, nk + 6, w)
    ensures KeysFor(Constants(), key, nk).E(b) == Std.Cipher(S, w, nk + 6, b)
  {
    var k := KeysFor(Constants(), key, nk);
    ProgramProducts();
    ProgramSBox(S);
    ProgramExpansion(S, key, nk, w);
    assert k.t == Constants() && k.nr == nk + 6;
    hide *;
    EncipherConforms(k.t, k.fkey, k.nr, b);
    CipherSame(k.t.fbsub, S, w, nk + 6, b);
    IsE(k, b);
  }

  lemma IsE(k: Keys, b: seq<byte>)
    requires k.Sized() && |b| == 16
    ensures k.E(b) == Encipher(k.t, k.fkey, k.nr, b)
  {
    hide Encipher;
  }

  lemma IsD(k: Keys, c: seq<byte>)
    requires k.Sized() && |c| == 16
    ensures k.D(c) == Decipher(k.t, k.rkey, k.nr, c)
  {
    hide Decipher;
  }

  /** And AES_ecb_decrypt is the inverse cipher of section 5.3. */
  lemma ProgramDeciphers(S: byte -> byte, R: byte -> byte, key: seq<byte>, nk: nat, w: seq<byte>, c: seq<byte>)
    requires IsSBox(S) && Undoes(R, S) && KeyWords(nk) && 4 * nk <= |key| && |c| == 16
    requires Std.IsExpansion(S, key, nk, nk + 6, w)
    ensures KeysFor(Constants(), key, nk).D(c) == Std.InvCipher(R, w, nk + 6, c)
  {
    var k := KeysFor(Constants(), key, nk);
    ConstantsFacts();
    KeysForValid(Constants(), key, nk);
    ProgramProducts();
    ProgramInverseSBox(S, R);
    ProgramExpansion(S, key, nk, w);
    assert k.t == Constants() && k.nr == nk + 6 && k.t.Linear() && ReversedKeys(k.t, k.fkey, k.rkey, k.nr);
    hide *;
    KeysDecipher(k, w, c);
    InvCipherSame(k.t.rbsub, R, w, nk + 6, c);
  }

  lemma KeysDecipher(k: Keys, w: seq<byte>, c: seq<byte>)
    requires k.Valid() && FieldProducts(k.t) && KeyBytes(k.fkey) == w && |c| == 16
    ensures 16 * k.nr + 16 <= |w| && k.nr >= 1 && k.D(c) == Std.InvCipher(k.t.rbsub, w, k.nr, c)
  {
    IsD(k, c);
    DecipherConforms(k.t, k.fkey, k.rkey, k.nr, c);
    hide FieldProducts, Tables.Facts, ReversedKeys, KeyBytes, Std.InvCipher, Decipher;
  }
}
