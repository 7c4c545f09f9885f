/** The AES context: key expansion and the table-driven block functions. */
module Aes {
  import opened AesWord
  import opened AesCipher

  // ---------------------------------------------------------------- blocks

  /** pack of the four columns of a block */
  function Block(s: seq<byte>): State
    requires |s| == 16
  {
    State(Word(s[0], s[1], s[2], s[3]), Word(s[4], s[5], s[6], s[7]), Word(s[8], s[9], s[10], s[11]),
        Word(s[12], s[13], s[14], s[15]))
  }

  /** unpack */
  function Unpack(x: Word): seq<byte> {
    [x.b0, x.b1, x.b2, x.b3]
  }

  function BytesOf(s: State): (r: seq<byte>)
    ensures |r| == 16
  {
    Unpack(s.c0) + Unpack(s.c1) + Unpack(s.c2) + Unpack(s.c3)
  }

  lemma BlockBytes(s: State)
    ensures Block(BytesOf(s)) == s
  {
  }

  lemma BytesBlock(s: seq<byte>)
    requires |s| == 16
    ensures BytesOf(Block(s)) == s
  {
  }

  /** The cipher on the sixteen bytes of a block. */
  function Encipher(t: Tables, keys: seq<Word>, nr: nat, b: seq<byte>): (c: seq<byte>)
    requires nr >= 1 && 4 * nr + 4 <= |keys| && |b| == 16
    ensures |c| == 16
  {
    BytesOf(Cipher(t, keys, nr, Block(b)))
  }

  function Decipher(t: Tables, keys: seq<Word>, nr: nat, c: seq<byte>): (b: seq<byte>)
    requires nr >= 1 && 4 * nr + 4 <= |keys| && |c| == 16
    ensures |b| == 16
  {
    BytesOf(InvCipher(t, keys, nr, Block(c)))
  }

  /** Deciphering with the reversed schedule gives every block back. */
  lemma DecipherEncipher(t: Tables, fkey: seq<Word>, rkey: seq<Word>, nr: nat, b: seq<byte>)
    requires t.Facts() && nr >= 1 && 4 * nr + 4 <= |fkey| && 4 * nr + 4 <= |rkey| && ReversedKeys(t, fkey, rkey, nr)
      && |b| == 16
    ensures Decipher(t, rkey, nr, Encipher(t, fkey, nr, b)) == b
  {
    hide Cipher, InvCipher, Tables.Facts, ReversedKeys;
    BlockBytes(Cipher(t, fkey, nr, Block(b)));
    DecryptionUndoes(t, fkey, rkey, nr, Block(b));
    BytesBlock(b);
  }

  /** The state held in an array of four words. */
  ghost function StateOf(x: array<Word>): State
    requires x.Length == 4
    reads x
  {
    State(x[0], x[1], x[2], x[3])
  }

  // ---------------------------------------------------------------- table lookups

  /** key ^ T[a] ^ ROTL8(T[b]) ^ ROTL16(T[c]) ^ ROTL24(T[d]) */
  function Lookup(T: byte -> Word, key: Word, a: byte, b: byte, c: byte, d: byte): Word {
    Xor(Xor(Xor(Xor(key, T(a)), Rotl8(T(b))), Rotl16(T(c))), Rotl24(T(d)))
  }

  /** The same with an S-box for a table, its byte in the low byte of a word. */
  function Substitute(S: byte -> byte, key: Word, a: byte, b: byte, c: byte, d: byte): Word {
    Xor(Xor(Xor(Xor(key, Word(S(a), 0, 0, 0)), Rotl8(Word(S(b), 0, 0, 0))), Rotl16(Word(S(c), 0, 0, 0))),
        Rotl24(Word(S(d), 0, 0, 0)))
  }

  lemma KeyLast(k: byte, a: byte, b: byte, c: byte, d: byte)
    ensures X(X(X(X(k, a), b), c), d) == X(X(X(X(a, b), c), d), k)
  {
    ByteCancel(k, a);
    ByteCancel(k, b);
    ByteCancel(k, c);
    ByteCancel(k, d);
    ByteAssoc(a, k, b);
    ByteAssoc(a, b, k);
    ByteAssoc(X(a, b), k, c);
    ByteAssoc(X(a, b), c, k);
    ByteAssoc(X(X(a, b), c), k, d);
    ByteAssoc(X(X(a, b), c), d, k);
    hide X;
  }

  lemma KeyWord(k: Word, p: Word, q: Word, r: Word, s: Word)
    ensures Xor(Xor(Xor(Xor(k, p), q), r), s) == Xor(Xor(Xor(Xor(p, q), r), s), k)
  {
    KeyLast(k.b0, p.b0, q.b0, r.b0, s.b0);
    KeyLast(k.b1, p.b1, q.b1, r.b1, s.b1);
    KeyLast(k.b2, p.b2, q.b2, r.b2, s.b2);
    KeyLast(k.b3, p.b3, q.b3, r.b3, s.b3);
    hide X;
  }

  /** One lookup in ftable substitutes, mixes and adds the key. */
  lemma LookupMixes(t: Tables, key: Word, a: byte, b: byte, c: byte, d: byte)
    requires t.Mixed()
    ensures Lookup(t.ftable, key, a, b, c, d) == Xor(t.MixCol(MapBytes(t.fbsub, Word(a, b, c, d))), key)
  {
    var p, q, r, s := t.ftable(a), t.ftable(b), t.ftable(c), t.ftable(d);
    KeyWord(key, p, Rotl8(q), Rotl16(r), Rotl24(s));
    ForwardColumn(t, a);
    ForwardColumn(t, b);
    ForwardColumn(t, c);
    ForwardColumn(t, d);
    hide Tables.Mixed, Tables.Mul, X;
  }

  lemma ForwardColumn(t: Tables, b: byte)
    requires t.Mixed()
    ensures t.ftable(b) == Word(t.Mul(2, t.fbsub(b)), t.fbsub(b), t.fbsub(b), t.Mul(3, t.fbsub(b)))
  {
  }

  lemma InverseColumn(t: Tables, b: byte)
    requires t.Mixed()
    ensures var s := t.rbsub(b); t.rtable(b) == Word(t.Mul(0xE, s), t.Mul(0x9, s), t.Mul(0xD, s), t.Mul(0xB, s))
  {
  }

  /** One lookup in rtable substitutes back, unmixes and adds the key. */
  lemma LookupUnmixes(t: Tables, key: Word, a: byte, b: byte, c: byte, d: byte)
    requires t.Mixed()
    ensures Lookup(t.rtable, key, a, b, c, d) == Xor(t.InvMixCol(MapBytes(t.rbsub, Word(a, b, c, d))), key)
  {
    var p, q, r, s := t.rtable(a), t.rtable(b), t.rtable(c), t.rtable(d);
    KeyWord(key, p, Rotl8(q), Rotl16(r), Rotl24(s));
    InverseColumn(t, a);
    InverseColumn(t, b);
    InverseColumn(t, c);
    InverseColumn(t, d);
    hide Tables.Mixed, Tables.Mul, X;
  }

  lemma ZeroByte(k: byte, s: byte)
    ensures X(X(X(X(k, s), 0), 0), 0) == X(s, k) && X(X(X(X(k, 0), s), 0), 0) == X(s, k)
    ensures X(X(X(X(k, 0), 0), s), 0) == X(s, k) && X(X(X(X(k, 0), 0), 0), s) == X(s, k)
  {
    ByteCancel(k, s);
    ByteCancel(k, 0);
    ByteCancel(X(k, s), 0);
    hide X;
  }

  /** In the last round the lookup only substitutes and adds the key. */
  lemma SubstituteOnly(S: byte -> byte, key: Word, a: byte, b: byte, c: byte, d: byte)
    ensures Substitute(S, key, a, b, c, d) == Xor(MapBytes(S, Word(a, b, c, d)), key)
  {
    ZeroByte(key.b0, S(a));
    ZeroByte(key.b1, S(b));
    ZeroByte(key.b2, S(c));
    ZeroByte(key.b3, S(d));
    hide X;
  }

  // ---------------------------------------------------------------- the key schedule

  const NB := 4

  const RCO: seq<byte> := [1, 2, 4, 8, 16, 32, 64, 128, 27, 54, 108, 216, 171, 77, 154, 47]

  /** Each round constant is x times the one before it, in the field of section 4.2 of FIPS 197. */
  lemma RoundConstants(i: nat)
    requires i < 15
    ensures RCO[0] == 1 && RCO[i + 1] == Times2(RCO[i])
  {
  }

  function SubByte(t: Tables, x: Word): Word {
    MapBytes(t.fbsub, x)
  }

  predicate KeyWords(nk: int) {
    nk == 4 || nk == 6 || nk == 8
  }

  /** Word i of the key expansion (section 5.2 of FIPS 197), given the words before it. */
  function Expanded(t: Tables, key: seq<Word>, keys: seq<Word>, i: nat): Word
    requires KeyWords(|key|) && i < 60 && i <= |keys|
  {
    var nk := |key|;
    if i < nk then key[i]
    else
      var temp := if i % nk == 0 then Xor(SubByte(t, Rotl24(keys[i - 1])), Word(RCO[i / nk - 1], 0, 0, 0))
                  else if nk > 6 && i % nk == 4 then SubByte(t, keys[i - 1])
                  else keys[i - 1];
      Xor(keys[i - nk], temp)
  }

  /** The first m words follow the recurrence. */
  ghost predicate Schedule(t: Tables, key: seq<Word>, keys: seq<Word>, m: nat)
    requires KeyWords(|key|)
  {
    m <= 60 && m <= |keys| && forall i :: 0 <= i < m ==> keys[i] == Expanded(t, key, keys, i)
  }

  lemma ExpandedFrame(t: Tables, key: seq<Word>, k1: seq<Word>, k2: seq<Word>, i: nat)
    requires KeyWords(|key|) && i < 60 && i <= |k1| && i <= |k2| && forall j :: 0 <= j < i ==> k1[j] == k2[j]
    ensures Expanded(t, key, k1, i) == Expanded(t, key, k2, i)
  {
    hide SubByte, Xor;
  }

  /** The schedule, computed word by word. */
  function Expansion(t: Tables, key: seq<Word>, m: nat): (keys: seq<Word>)
    requires KeyWords(|key|) && m <= 60
    ensures |keys| == m
    decreases m
  {
    if m == 0 then [] else var before := Expansion(t, key, m - 1); before + [Expanded(t, key, before, m - 1)]
  }

  /** The recurrence determines the schedule. */
  lemma {:induction false} ScheduleUnique(t: Tables, key: seq<Word>, keys: seq<Word>, m: nat)
    requires KeyWords(|key|) && Schedule(t, key, keys, m)
    ensures keys[..m] == Expansion(t, key, m)
    decreases m
  {
    if m > 0 {
      hide Expanded;
      ScheduleUnique(t, key, keys, m - 1);
      assert forall i :: 0 <= i < m - 1 ==> keys[i] == keys[..m - 1][i] == Expansion(t, key, m - 1)[i];
      ExpandedFrame(t, key, keys, Expansion(t, key, m - 1), m - 1);
      assert keys[..m] == keys[..m - 1] + [keys[m - 1]];
    }
  }

  /** And the schedule computed follows it. */
  lemma {:induction false} ExpansionFollows(t: Tables, key: seq<Word>, m: nat)
    requires KeyWords(|key|) && m <= 60
    ensures Schedule(t, key, Expansion(t, key, m), m)
    decreases m
  {
    hide Expanded;
    if m > 0 {
      var before, keys := Expansion(t, key, m - 1), Expansion(t, key, m);
      ExpansionFollows(t, key, m - 1);
      forall i | 0 <= i < m ensures keys[i] == Expanded(t, key, keys, i) {
        ExpandedFrame(t, key, before, keys, i);
      }
    }
  }

  /** The decryption schedule of an encryption schedule. */
  function Reversal(t: Tables, fkey: seq<Word>, nr: nat): (rkey: seq<Word>)
    requires nr >= 1 && 4 * nr + 4 <= |fkey|
    ensures |rkey| == 4 * nr + 4
  {
    seq(4 * nr + 4, i requires 0 <= i < 4 * nr + 4 => ReversedWord(t, fkey, nr, i / 4, i % 4))
  }

  /** Word r of key n. */
  function ReversedWord(t: Tables, fkey: seq<Word>, nr: nat, n: nat, r: nat): Word
    requires n <= nr && r < 4 && 4 * nr + 4 <= |fkey|
  {
    if n == 0 || n == nr then fkey[4 * (nr - n) + r] else t.InvMixCol(fkey[4 * (nr - n) + r])
  }

  lemma ReversalUnique(t: Tables, fkey: seq<Word>, rkey: seq<Word>, nr: nat)
    requires nr >= 1 && 4 * nr + 4 <= |fkey| && 4 * nr + 4 <= |rkey| && ReversedKeys(t, fkey, rkey, nr)
    ensures rkey[..4 * nr + 4] == Reversal(t, fkey, nr)
  {
    hide Tables.InvMixCol;
    forall i | 0 <= i < 4 * nr + 4 ensures rkey[i] == ReversedWord(t, fkey, nr, i / 4, i % 4) {
      var n, r := i / 4, i % 4;
      assert i == 4 * n + r;
      ReversedKeyWord(t, fkey, rkey, nr, n, r);
    }
  }

  lemma ReversedKeyWord(t: Tables, fkey: seq<Word>, rkey: seq<Word>, nr: nat, n: nat, r: nat)
    requires nr >= 1 && 4 * nr + 4 <= |fkey| && 4 * nr + 4 <= |rkey| && ReversedKeys(t, fkey, rkey, nr) && n <= nr
      && r < 4
    ensures rkey[4 * n + r] == ReversedWord(t, fkey, nr, n, r)
  {
    hide Tables.InvMixCol;
    if 0 < n < nr {
      assert Key(rkey, n) == InvMixColumns(t, Key(fkey, nr - n));
    }
  }

  lemma ReversalReverses(t: Tables, fkey: seq<Word>, nr: nat)
    requires nr >= 1 && 4 * nr + 4 <= |fkey|
    ensures ReversedKeys(t, fkey, Reversal(t, fkey, nr), nr)
  {
    hide Tables.InvMixCol, Reversal;
    forall n | 0 <= n <= nr
      ensures Key(Reversal(t, fkey, nr), n) == State(ReversedWord(t, fkey, nr, n, 0), ReversedWord(t, fkey, nr, n, 1),
                                                     ReversedWord(t, fkey, nr, n, 2), ReversedWord(t, fkey, nr, n, 3))
    {
      ReversalIndex(t, fkey, nr, n, 0);
      ReversalIndex(t, fkey, nr, n, 1);
      ReversalIndex(t, fkey, nr, n, 2);
      ReversalIndex(t, fkey, nr, n, 3);
    }
  }

  lemma ReversalIndex(t: Tables, fkey: seq<Word>, nr: nat, n: nat, r: nat)
    requires nr >= 1 && 4 * nr + 4 <= |fkey| && n <= nr && r < 4
    ensures Reversal(t, fkey, nr)[4 * n + r] == ReversedWord(t, fkey, nr, n, r)
  {
    hide Tables.InvMixCol;
    assert (4 * n + r) / 4 == n && (4 * n + r) % 4 == r;
  }

  /** Only the first 4*nr + 4 words matter. */
  lemma {:induction false} RoundsPrefix(t: Tables, keys: seq<Word>, m: nat, s: State, i: nat)
    requires 4 * i + 4 <= m <= |keys|
    ensures Rounds(t, keys, s, i) == Rounds(t, keys[..m], s, i)
    ensures InvRounds(t, keys, s, i) == InvRounds(t, keys[..m], s, i)
    decreases i
  {
    hide AddKey, Round, InvRound;
    assert Key(keys[..m], i) == Key(keys, i);
    if i > 0 {
      RoundsPrefix(t, keys, m, s, i - 1);
    }
  }

  lemma EncipherPrefix(t: Tables, keys: seq<Word>, nr: nat, b: seq<byte>)
    requires nr >= 1 && 4 * nr + 4 <= |keys| && |b| == 16
    ensures Encipher(t, keys, nr, b) == Encipher(t, keys[..4 * nr + 4], nr, b)
    ensures Decipher(t, keys, nr, b) == Decipher(t, keys[..4 * nr + 4], nr, b)
  {
    var m := 4 * nr + 4;
    RoundsPrefix(t, keys, m, Block(b), nr - 1);
    assert Key(keys[..m], nr) == Key(keys, nr);
    hide BytesOf, Block, AddKey, Scramble, Unscramble, Rounds, InvRounds, Key;
  }

  /** Where word nk*q + r stands in its group. */
  lemma GroupIndex(nk: nat, q: nat, r: nat)
    requires KeyWords(nk) && r < nk
    ensures (nk * q + r) % nk == r && (nk * q + r) / nk == q
  {
  }

  /** The words of a key: pack of each four bytes. */
  function CipherKey(key: seq<byte>, nk: nat): (w: seq<Word>)
    requires 4 * nk <= |key|
    ensures |w| == nk
  {
    seq(nk, i requires 0 <= i < nk => Word(key[4 * i], key[4 * i + 1], key[4 * i + 2], key[4 * i + 3]))
  }

  /** The recurrence of a schedule (section 5.2 of FIPS 197), at word i. */
  ghost predicate FollowsAt(t: Tables, nk: nat, keys: seq<Word>, i: nat)
    requires KeyWords(nk) && nk <= i < 60 && i < |keys|
  {
    keys[i] == Xor(keys[i - nk],
      if i % nk == 0 then Xor(SubByte(t, Rotl24(keys[i - 1])), Word(RCO[i / nk - 1], 0, 0, 0))
      else if nk == 8 && i % nk == 4 then SubByte(t, keys[i - 1])
      else keys[i - 1])
  }

  /** The schedule of a key of nk words: the words of the key, and then the recurrence. */
  ghost predicate IsSchedule(t: Tables, key: seq<byte>, nk: nat, keys: seq<Word>)
    requires KeyWords(nk) && 4 * nk <= |key| && 4 * nk + 28 <= |keys|
  {
    && (forall i :: 0 <= i < nk ==> keys[i] == Word(key[4 * i], key[4 * i + 1], key[4 * i + 2], key[4 * i + 3]))
    && forall i :: nk <= i < 4 * nk + 28 ==> FollowsAt(t, nk, keys, i)
  }

  lemma KeyWordAt(t: Tables, key: seq<byte>, nk: nat, keys: seq<Word>, i: nat)
    requires KeyWords(nk) && 4 * nk <= |key| && i < nk && i <= |keys|
    ensures Expanded(t, CipherKey(key, nk), keys, i) == Word(key[4 * i], key[4 * i + 1], key[4 * i + 2], key[4 * i + 3])
  {
  }

  lemma RecurrenceAt(t: Tables, key: seq<Word>, nk: nat, keys: seq<Word>, i: nat)
    requires KeyWords(nk) && |key| == nk && nk <= i < 60 && i <= |keys|
    ensures Expanded(t, key, keys, i)
         == Xor(keys[i - nk],
              if i % nk == 0 then Xor(SubByte(t, Rotl24(keys[i - 1])), Word(RCO[i / nk - 1], 0, 0, 0))
              else if nk == 8 && i % nk == 4 then SubByte(t, keys[i - 1])
              else keys[i - 1])
  {
  }

  lemma ScheduleWords(t: Tables, key: seq<byte>, nk: nat, keys: seq<Word>)
    requires KeyWords(nk) && 4 * nk <= |key| && Schedule(t, CipherKey(key, nk), keys, 4 * nk + 28)
    ensures IsSchedule(t, key, nk, keys)
  {
    var words := CipherKey(key, nk);
    hide Xor, SubByte, Rotl24, Expanded, RCO, CipherKey;
    forall i | 0 <= i < nk
      ensures keys[i] == Word(key[4 * i], key[4 * i + 1], key[4 * i + 2], key[4 * i + 3])
    {
      KeyWordAt(t, key, nk, keys, i);
      assert keys[i] == Expanded(t, words, keys, i);
    }
    forall i | nk <= i < 4 * nk + 28 ensures FollowsAt(t, nk, keys, i) {
      RecurrenceAt(t, words, nk, keys, i);
      assert keys[i] == Expanded(t, words, keys, i);
    }
  }

  lemma WordsSchedule(t: Tables, key: seq<byte>, len: nat, nk: nat, keys: seq<Word>)
    requires KeyWords(nk) && 4 * nk <= len <= |key| && |keys| == 60 && IsSchedule(t, key, nk, keys)
    ensures Schedule(t, CipherKey(key[..len], nk), keys, 4 * nk + 28)
  {
    var words := CipherKey(key[..len], nk);
    hide Xor, SubByte, Rotl24, Expanded, RCO, CipherKey;
    forall i | 0 <= i < 4 * nk + 28 ensures keys[i] == Expanded(t, words, keys, i) {
      if i < nk {
        KeyWordAt(t, key[..len], nk, keys, i);
      } else {
        assert FollowsAt(t, nk, keys, i);
        RecurrenceAt(t, words, nk, keys, i);
      }
    }
  }

  /** Row j = nk*q of the expansion, and the rest of its group, for keys of four or six words. */
  method ExpandKey(t: Tables, fkey: array<Word>, key: seq<Word>, nk: nat, N: nat)
    requires fkey.Length == 60 && KeyWords(nk) && |key| == nk && nk <= N <= 60 && N == 4 * nk + 28
    modifies fkey
    ensures Schedule(t, key, fkey[..], N)
    ensures forall i :: 0 <= i < nk ==> fkey[i] == key[i]
  {
    var i := 0;
    while i < nk
      invariant 0 <= i <= nk
      invariant forall l :: 0 <= l < i ==> fkey[l] == key[l]
    {
      fkey[i] := key[i];
      i := i + 1;
    }
    var j, k := nk, 0;
    ghost var done := nk;
    while j < N
      invariant j == nk * (k + 1) && nk <= done && done == (if j < N then j else N)
      invariant Schedule(t, key, fkey[..], done)
      modifies fkey
    {
      FirstOfGroup(t, fkey, key, nk, j, k);
      if nk <= 6 {
        Chain(t, fkey, key, nk, N, j, k, 1, nk);
      } else {
        Chain(t, fkey, key, nk, N, j, k, 1, 4);
        if j + 4 < N {
          FifthOfGroup(t, fkey, key, nk, j, k);
        }
        Chain(t, fkey, key, nk, N, j, k, 5, nk);
      }
      j := j + nk;
      k := k + 1;
      done := if j < N then j else N;
    }
  }

  /** The end of a chain, cut off at the length of the schedule. */
  function Until(x: int, N: int): int {
    if x < N then x else N
  }

  /** fkey[j] = fkey[j-nk] ^ SubByte(ROTL24(fkey[j-1])) ^ rco[k] */
  method FirstOfGroup(t: Tables, fkey: array<Word>, key: seq<Word>, nk: nat, j: nat, k: nat)
    requires fkey.Length == 60 && KeyWords(nk) && |key| == nk && j == nk * (k + 1) && j < 60
      && Schedule(t, key, fkey[..], j)
    modifies fkey
    ensures Schedule(t, key, fkey[..], j + 1)
  {
    FirstExpanded(t, key, fkey[..], nk, j, k);
    hide Expanded, Schedule;
    ghost var before := fkey[..];
    fkey[j] := Xor(Xor(fkey[j - nk], SubByte(t, Rotl24(fkey[j - 1]))), Word(RCO[k], 0, 0, 0));
    ExtendSchedule(t, key, before, fkey[..], j);
  }

  lemma FirstExpanded(t: Tables, key: seq<Word>, keys: seq<Word>, nk: nat, j: nat, k: nat)
    requires KeyWords(nk) && |key| == nk && j == nk * (k + 1) && j < 60 && j <= |keys|
    ensures k < |RCO|
    ensures Expanded(t, key, keys, j) == Xor(Xor(keys[j - nk], SubByte(t, Rotl24(keys[j - 1]))), Word(RCO[k], 0, 0, 0))
  {
    GroupIndex(nk, k + 1, 0);
    XorAssoc(keys[j - nk], SubByte(t, Rotl24(keys[j - 1])), Word(RCO[k], 0, 0, 0));
    hide Xor, SubByte;
  }

  lemma FifthExpanded(t: Tables, key: seq<Word>, keys: seq<Word>, j: nat, k: nat)
    requires |key| == 8 && j == 8 * (k + 1) && j + 4 < 60 && j + 4 <= |keys|
    ensures Expanded(t, key, keys, j + 4) == Xor(keys[j + 4 - 8], SubByte(t, keys[j + 3]))
  {
    GroupIndex(8, k + 1, 4);
    hide Xor, SubByte;
  }

  /** if (j+4 < N) fkey[j+4] = fkey[j+4-nk] ^ SubByte(fkey[j+3]) */
  method FifthOfGroup(t: Tables, fkey: array<Word>, key: seq<Word>, nk: nat, j: nat, k: nat)
    requires fkey.Length == 60 && nk == 8 && |key| == nk && j == nk * (k + 1) && j + 4 < 60
      && Schedule(t, key, fkey[..], j + 4)
    modifies fkey
    ensures Schedule(t, key, fkey[..], j + 5)
  {
    FifthExpanded(t, key, fkey[..], j, k);
    hide Expanded, Schedule;
    ghost var before := fkey[..];
    fkey[j + 4] := Xor(fkey[j + 4 - nk], SubByte(t, fkey[j + 3]));
    ExtendSchedule(t, key, before, fkey[..], j + 4);
  }

  /** for (i = from; i < to && i+j < N; i++) fkey[i+j] = fkey[i+j-nk] ^ fkey[i+j-1] */
  method Chain(t: Tables, fkey: array<Word>, key: seq<Word>, nk: nat, N: nat, j: nat, k: nat, from: nat, to: nat)
    requires fkey.Length == 60 && KeyWords(nk) && |key| == nk && N <= 60 && j == nk * (k + 1) && j < N
    requires 1 <= from <= to <= nk && (nk == 8 ==> to <= 4 || from >= 5)
    requires Schedule(t, key, fkey[..], Until(from + j, N))
    modifies fkey
    ensures Schedule(t, key, fkey[..], Until(to + j, N))
  {
    hide Expanded, Schedule, Xor;
    var i := from;
    while i < to && i + j < N
      invariant from <= i <= to && Schedule(t, key, fkey[..], Until(i + j, N))
    {
      ghost var before := fkey[..];
      ChainExpanded(t, key, before, nk, j, k, i);
      fkey[i + j] := Xor(fkey[i + j - nk], fkey[i + j - 1]);
      ExtendSchedule(t, key, before, fkey[..], i + j);
      i := i + 1;
    }
  }

  lemma ChainExpanded(t: Tables, key: seq<Word>, keys: seq<Word>, nk: nat, j: nat, k: nat, i: nat)
    requires KeyWords(nk) && |key| == nk && j == nk * (k + 1) && 1 <= i < nk && i + j < 60 && i + j <= |keys|
      && (nk == 8 ==> i != 4)
    ensures Expanded(t, key, keys, i + j) == Xor(keys[i + j - nk], keys[i + j - 1])
  {
    GroupIndex(nk, k + 1, i);
    hide Xor, SubByte;
  }

  lemma ExtendSchedule(t: Tables, key: seq<Word>, before: seq<Word>, after: seq<Word>, m: nat)
    requires KeyWords(|key|) && m < 60 && |before| == |after| == 60 && Schedule(t, key, before, m)
    requires forall i :: 0 <= i < 60 && i != m ==> after[i] == before[i]
    requires after[m] == Expanded(t, key, before, m)
    ensures Schedule(t, key, after, m + 1)
  {
    hide Expanded;
    forall i | 0 <= i <= m ensures after[i] == Expanded(t, key, after, i) {
      ExpandedFrame(t, key, before, after, i);
    }
  }

  const ECB := 0

  datatype Option<T> = None | Some(value: T)

  /** The register after a reset. */
  function Register(mode: int, iv: Option<seq<byte>>): (f: seq<byte>)
    requires iv.Some? ==> |iv.value| >= 16
    ensures |f| == 16
    ensures if mode != ECB && iv.Some? then forall i :: 0 <= i < 16 ==> f[i] == iv.value[i]
            else forall i :: 0 <= i < 16 ==> f[i] == 0
  {
    if mode != ECB && iv.Some? then iv.value[..16] else seq(16, _ => 0)
  }

  /** Key n of the decryption schedule, other than the first and the last. */
  ghost predicate Reversed(t: Tables, rkey: seq<Word>, fkey: seq<Word>, nr: nat, n: nat)
    requires n <= nr && 4 * nr + 4 <= |rkey| && 4 * nr + 4 <= |fkey|
  {
    Key(rkey, n) == InvMixColumns(t, Key(fkey, nr - n))
  }

  lemma ReversedFrame(t: Tables, before: seq<Word>, after: seq<Word>, fkey: seq<Word>, nr: nat, n: nat)
    requires n <= nr && 4 * nr + 4 <= |before| == |after| && 4 * nr + 4 <= |fkey| && Reversed(t, before, fkey, nr, n)
    requires forall l :: 4 * n <= l < 4 * n + 4 ==> after[l] == before[l]
    ensures Reversed(t, after, fkey, nr, n)
  {
    assert Key(after, n) == Key(before, n);
  }

  /** The decryption schedule: the last round key first, the first one last, the others through
      InvMixCol in between. */
  method ReverseKeys(t: Tables, fkey: array<Word>, rkey: array<Word>, nr: nat)
    requires fkey.Length == rkey.Length == 60 && fkey != rkey && nr >= 1 && 4 * nr + 4 <= 60
    modifies rkey
    ensures ReversedKeys(t, fkey[..], rkey[..], nr)
  {
    var N := NB * (nr + 1);
    LastKey(fkey, rkey, N);
    MiddleKeys(t, fkey, rkey, nr, N);
    ghost var before := rkey[..];
    FirstKey(fkey, rkey, N);
    forall n | 0 < n < nr ensures Key(rkey[..], n) == InvMixColumns(t, Key(fkey[..], nr - n)) {
      assert Reversed(t, before, fkey[..], nr, n);
      ReversedFrame(t, before, rkey[..], fkey[..], nr, n);
    }
  }

  /** for (j = 0; j < NB; j++) rkey[j+N-NB] = fkey[j] */
  method LastKey(fkey: array<Word>, rkey: array<Word>, N: nat)
    requires fkey.Length == rkey.Length == 60 && fkey != rkey && 8 <= N <= 60
    modifies rkey
    ensures forall l :: N - 4 <= l < N ==> rkey[l] == fkey[l - (N - 4)]
  {
    var j := 0;
    while j < NB
      invariant 0 <= j <= NB && forall l :: N - 4 <= l < N - 4 + j ==> rkey[l] == fkey[l - (N - 4)]
    {
      rkey[j + N - NB] := fkey[j];
      j := j + 1;
    }
  }

  /** for (i = NB; i < N-NB; i += NB) */
  method MiddleKeys(t: Tables, fkey: array<Word>, rkey: array<Word>, nr: nat, N: nat)
    requires fkey.Length == rkey.Length == 60 && fkey != rkey && nr >= 1 && 4 * nr + 4 == N <= 60
    modifies rkey
    ensures forall n :: 0 < n < nr ==> Reversed(t, rkey[..], fkey[..], nr, n)
    ensures forall l :: N - 4 <= l < N ==> rkey[l] == old(rkey[l])
  {
    hide Reversed;
    ghost var r := 1;
    var i := NB;
    while i < N - NB
      invariant i == 4 * r && 1 <= r <= nr
      invariant forall l :: N - 4 <= l < N ==> rkey[l] == old(rkey[l])
      invariant forall n :: nr - r < n < nr ==> Reversed(t, rkey[..], fkey[..], nr, n)
      modifies rkey
    {
      ghost var before := rkey[..];
      MixKey(t, fkey, rkey, i, N - NB - i, r, nr);
      forall n | nr - r < n < nr ensures Reversed(t, rkey[..], fkey[..], nr, n) {
        ReversedFrame(t, before, rkey[..], fkey[..], nr, n);
      }
      i := i + NB;
      r := r + 1;
    }
  }

  /** for (j = 0; j < NB; j++) rkey[k+j] = InvMixCol(fkey[i+j]) */
  method MixKey(t: Tables, fkey: array<Word>, rkey: array<Word>, i: nat, k: nat, ghost r: nat, ghost nr: nat)
    requires fkey.Length == rkey.Length == 60 && fkey != rkey && 1 <= r < nr && 4 * nr + 4 <= 60 && i == 4 * r
      && k == 4 * (nr - r)
    modifies rkey
    ensures Reversed(t, rkey[..], fkey[..], nr, nr - r)
    ensures forall l :: 0 <= l < 60 && !(k <= l < k + 4) ==> rkey[l] == old(rkey[l])
  {
    hide Tables.InvMixCol;
    var j := 0;
    while j < NB
      invariant 0 <= j <= NB && forall l :: k <= l < k + j ==> rkey[l] == t.InvMixCol(fkey[l - k + i])
      invariant forall l :: 0 <= l < 60 && !(k <= l < k + 4) ==> rkey[l] == old(rkey[l])
    {
      rkey[k + j] := t.InvMixCol(fkey[i + j]);
      j := j + 1;
    }
  }

  /** for (j = N-NB; j < N; j++) rkey[j-N+NB] = fkey[j] */
  method FirstKey(fkey: array<Word>, rkey: array<Word>, N: nat)
    requires fkey.Length == rkey.Length == 60 && fkey != rkey && 8 <= N <= 60
    modifies rkey
    ensures forall l :: 0 <= l < 4 ==> rkey[l] == fkey[l + (N - 4)]
    ensures forall l :: 4 <= l < 60 ==> rkey[l] == old(rkey[l])
  {
    var j := N - NB;
    while j < N
      invariant N - NB <= j <= N && forall l :: 0 <= l < j - N + NB ==> rkey[l] == fkey[l + (N - 4)]
      invariant forall l :: 4 <= l < 60 ==> rkey[l] == old(rkey[l])
    {
      rkey[j - N + NB] := fkey[j];
      j := j + 1;
    }
  }

  /** CipherKey[i] = pack(&key[4i]) */
  method PackKey(key: array<byte>, n: nat) returns (w: array<Word>)
    requires n <= 8 && 4 * n <= key.Length
    ensures fresh(w) && w.Length == 8 && w[..n] == CipherKey(key[..], n)
  {
    w := new Word[8];
    var i := 0;
    while i < n
      invariant 0 <= i <= n && forall l :: 0 <= l < i ==> w[l] == CipherKey(key[..], n)[l]
      modifies w
    {
      w[i] := Word(key[4 * i], key[4 * i + 1], key[4 * i + 2], key[4 * i + 3]);
      i := i + 1;
    }
  }

  /** Both schedules of a key of nk words, for 6 + nk rounds. */
  method KeySchedules(t: Tables, fkey: array<Word>, rkey: array<Word>, key: array<byte>, nk: nat)
    requires fkey.Length == rkey.Length == 60 && fkey != rkey && KeyWords(nk) && 4 * nk <= key.Length
    modifies fkey, rkey
    ensures Schedule(t, CipherKey(old(key[..]), nk), fkey[..], 4 * nk + 28)
    ensures ReversedKeys(t, fkey[..], rkey[..], 6 + nk)
  {
    hide Schedule, Expanded, ReversedKeys, CipherKey;
    var w := PackKey(key, nk);
    ExpandKey(t, fkey, w[..nk], nk, NB * (6 + nk + 1));
    ghost var keys := fkey[..];
    ReverseKeys(t, fkey, rkey, 6 + nk);
    assert fkey[..] == keys;
  }

  class Context {
    var nk: nat
    var nr: nat
    var mode: int
    const fkey: array<Word>
    const rkey: array<Word>
    const f: array<byte>

    ghost predicate Shape()
      reads this
    {
      fkey.Length == 60 && rkey.Length == 60 && f.Length == 16 && fkey != rkey
    }

    /** A context that a successful AES_init has left behind. */
    ghost predicate Ready(t: Tables)
      reads this, fkey, rkey
    {
      Shape() && nr >= 1 && 4 * nr + 4 <= 60 && ReversedKeys(t, fkey[..], rkey[..], nr)
    }

    constructor ()
      ensures Shape() && fresh(fkey) && fresh(rkey) && fresh(f)
    {
      fkey := new Word[60];
      rkey := new Word[60];
      f := new byte[16];
      nk, nr, mode := 0, 0, 0;
    }

    /** AES_reset: every mode but ECB (0) takes the initial vector, if there is one, as its register. */
    method Reset(mode: int, iv: array?<byte>)
      requires Shape() && (iv != null ==> iv.Length >= 16 && iv != f)
      modifies this`mode, f
      ensures this.mode == mode
      ensures f[..] == Register(mode, if iv != null then Some(old(iv[..])) else None)
      ensures if mode != ECB && iv != null then forall i :: 0 <= i < 16 ==> f[i] == old(iv[i])
              else forall i :: 0 <= i < 16 ==> f[i] == 0
    {
      this.mode := mode;
      var i := 0;
      while i < 16
        invariant 0 <= i <= 16 && forall l :: 0 <= l < i ==> f[l] == 0
        modifies f
      {
        f[i] := 0;
        i := i + 1;
      }
      if mode != ECB && iv != null {
        i := 0;
        while i < 16
          invariant 0 <= i <= 16 && forall l :: 0 <= l < i ==> f[l] == iv[l]
          modifies f
        {
          f[i] := iv[i];
          i := i + 1;
        }
      }
    }

    /** AES_init: 16, 24 or 32 bytes of key give 10, 12 or 14 rounds; any other length is refused and
        changes nothing. */
    method Init(t: Tables, mode: int, bytes: nat, key: array<byte>, iv: array?<byte>) returns (ok: int)
      requires Shape() && key.Length >= bytes && key != f && (iv != null ==> iv.Length >= 16 && iv != f)
      modifies this`mode, this`nk, this`nr, f, fkey, rkey
      ensures ok == if KeyWords(bytes / 4) then 1 else 0
      ensures ok == 0 ==> unchanged(this) && unchanged(f) && unchanged(fkey) && unchanged(rkey)
      ensures ok == 1 ==> nk == bytes / 4 && nr == 6 + nk && this.mode == mode && Ready(t)
      ensures ok == 1 ==> f[..] == Register(mode, if iv != null then Some(old(iv[..])) else None)
      ensures ok == 1 ==> IsSchedule(t, old(key[..]), nk, fkey[..])
    {
      hide Schedule, Expanded, ReversedKeys, CipherKey, Register, IsSchedule;
      var n := bytes / 4;
      if n != 4 && n != 6 && n != 8 { return 0; }
      nk, nr := n, 6 + n;
      Reset(mode, iv);
      KeySchedules(t, fkey, rkey, key, n);
      ScheduleWords(t, old(key[..]), n, fkey[..]);
      ok := 1;
    }

    /** AES_ecb_encrypt: the cipher, by table lookups on two alternating state arrays. */
    method EcbEncrypt(t: Tables, buff: array<byte>)
      requires Shape() && nr >= 1 && 4 * nr + 4 <= 60 && t.Mixed() && buff.Length == 16
      modifies buff
      ensures buff[..] == Encipher(t, old(fkey[..4 * nr + 4]), nr, old(buff[..]))
    {
      hide Encipher, Decipher;
      EncryptBlock(t, fkey, nr, buff);
    }

    /** AES_ecb_decrypt: the equivalent inverse cipher, the same way. */
    method EcbDecrypt(t: Tables, buff: array<byte>)
      requires Shape() && nr >= 1 && 4 * nr + 4 <= 60 && t.Mixed() && buff.Length == 16
      modifies buff
      ensures buff[..] == Decipher(t, old(rkey[..4 * nr + 4]), nr, old(buff[..]))
    {
      hide Encipher, Decipher;
      DecryptBlock(t, rkey, nr, buff);
    }
  }

  /** The rounds before the last: state alternates between the two arrays. */
  method ForwardLoop(t: Tables, p: array<Word>, q: array<Word>, key: array<Word>, nr: nat, ghost s: State)
      returns (x: array<Word>, y: array<Word>)
    requires nr >= 1 && 4 * nr + 4 <= key.Length && t.Mixed()
    requires p.Length == q.Length == 4 && p != q && p != key && q != key
    requires StateOf(p) == Rounds(t, key[..], s, 0)
    modifies p, q
    ensures (x == p && y == q) || (x == q && y == p)
    ensures StateOf(x) == Rounds(t, old(key[..]), s, nr - 1)
  {
    hide Rounds, Tables.Mixed, Round, InvRound, Key, StateOf;
    x, y := p, q;
    var k := NB;
    var i := 1;
    while i < nr
      invariant 1 <= i <= nr && k == 4 * i
      invariant (x == p && y == q) || (x == q && y == p)
      invariant StateOf(x) == Rounds(t, key[..], s, i - 1)
      modifies p, q
    {
      ForwardRound(t, x, y, key, k, i);
      RoundsNext(t, key[..], s, i);
      k := k + 4;
      x, y := y, x;
      i := i + 1;
    }
  }

  /** All rounds after the first key. */
  method EncryptColumns(t: Tables, p: array<Word>, q: array<Word>, key: array<Word>, nr: nat, ghost s: State)
      returns (y: array<Word>)
    requires nr >= 1 && 4 * nr + 4 <= key.Length && t.Mixed()
    requires p.Length == q.Length == 4 && p != q && p != key && q != key
    requires StateOf(p) == AddKey(s, Key(key[..], 0))
    modifies p, q
    ensures y.Length == 4 && StateOf(y) == Cipher(t, old(key[..]), nr, s)
  {
    RoundsStart(t, key[..], s);
    CipherEnd(t, key[..], nr, s);
    hide Rounds, InvRounds, Cipher, InvCipher, Tables.Mixed, AddKey, Scramble, Unscramble, Key, StateOf;
    var x: array<Word>;
    x, y := ForwardLoop(t, p, q, key, nr, s);
    LastForward(t, x, y, key, NB * nr, nr);
  }

  /** The rounds before the last: state alternates between the two arrays. */
  method BackwardLoop(t: Tables, p: array<Word>, q: array<Word>, key: array<Word>, nr: nat, ghost s: State)
      returns (x: array<Word>, y: array<Word>)
    requires nr >= 1 && 4 * nr + 4 <= key.Length && t.Mixed()
    requires p.Length == q.Length == 4 && p != q && p != key && q != key
    requires StateOf(p) == InvRounds(t, key[..], s, 0)
    modifies p, q
    ensures (x == p && y == q) || (x == q && y == p)
    ensures StateOf(x) == InvRounds(t, old(key[..]), s, nr - 1)
  {
    hide InvRounds, Tables.Mixed, Round, InvRound, Key, StateOf;
    x, y := p, q;
    var k := NB;
    var i := 1;
    while i < nr
      invariant 1 <= i <= nr && k == 4 * i
      invariant (x == p && y == q) || (x == q && y == p)
      invariant StateOf(x) == InvRounds(t, key[..], s, i - 1)
      modifies p, q
    {
      BackwardRound(t, x, y, key, k, i);
      InvRoundsNext(t, key[..], s, i);
      k := k + 4;
      x, y := y, x;
      i := i + 1;
    }
  }

  /** All rounds after the first key. */
  method DecryptColumns(t: Tables, p: array<Word>, q: array<Word>, key: array<Word>, nr: nat, ghost s: State)
      returns (y: array<Word>)
    requires nr >= 1 && 4 * nr + 4 <= key.Length && t.Mixed()
    requires p.Length == q.Length == 4 && p != q && p != key && q != key
    requires StateOf(p) == AddKey(s, Key(key[..], 0))
    modifies p, q
    ensures y.Length == 4 && StateOf(y) == InvCipher(t, old(key[..]), nr, s)
  {
    InvRoundsStart(t, key[..], s);
    InvCipherEnd(t, key[..], nr, s);
    hide Rounds, InvRounds, Cipher, InvCipher, Tables.Mixed, AddKey, Scramble, Unscramble, Key, StateOf;
    var x: array<Word>;
    x, y := BackwardLoop(t, p, q, key, nr, s);
    LastBackward(t, x, y, key, NB * nr, nr);
  }

  method EncryptBlock(t: Tables, key: array<Word>, nr: nat, buff: array<byte>)
    requires nr >= 1 && 4 * nr + 4 <= key.Length && t.Mixed() && buff.Length == 16
    modifies buff
    ensures buff[..] == Encipher(t, old(key[..4 * nr + 4]), nr, old(buff[..]))
  {
    EncipherPrefix(t, key[..], nr, buff[..]);
    assert key[..][..4 * nr + 4] == key[..4 * nr + 4];
    hide *;
    EncryptWhole(t, key, nr, buff);
  }

  method EncryptWhole(t: Tables, key: array<Word>, nr: nat, buff: array<byte>)
    requires nr >= 1 && 4 * nr + 4 <= key.Length && t.Mixed() && buff.Length == 16
    modifies buff
    ensures buff[..] == Encipher(t, old(key[..]), nr, old(buff[..]))
  {
    hide Block, BytesOf, Cipher, AddKey, StateOf, Tables.Mixed;
    ghost var s := Block(buff[..]);
    var p, q := new Word[4], new Word[4];
    LoadColumns(p, buff, key);
    var y := EncryptColumns(t, p, q, key, nr, s);
    StoreColumns(y, buff);
  }

  method DecryptBlock(t: Tables, key: array<Word>, nr: nat, buff: array<byte>)
    requires nr >= 1 && 4 * nr + 4 <= key.Length && t.Mixed() && buff.Length == 16
    modifies buff
    ensures buff[..] == Decipher(t, old(key[..4 * nr + 4]), nr, old(buff[..]))
  {
    EncipherPrefix(t, key[..], nr, buff[..]);
    assert key[..][..4 * nr + 4] == key[..4 * nr + 4];
    hide *;
    DecryptWhole(t, key, nr, buff);
  }

  method DecryptWhole(t: Tables, key: array<Word>, nr: nat, buff: array<byte>)
    requires nr >= 1 && 4 * nr + 4 <= key.Length && t.Mixed() && buff.Length == 16
    modifies buff
    ensures buff[..] == Decipher(t, old(key[..]), nr, old(buff[..]))
  {
    hide Block, BytesOf, InvCipher, AddKey, StateOf, Tables.Mixed;
    ghost var s := Block(buff[..]);
    var p, q := new Word[4], new Word[4];
    LoadColumns(p, buff, key);
    var y := DecryptColumns(t, p, q, key, nr, s);
    StoreColumns(y, buff);
  }

  lemma RoundsStart(t: Tables, keys: seq<Word>, s: State)
    requires |keys| >= 4
    ensures Rounds(t, keys, s, 0) == AddKey(s, Key(keys, 0))
  {
  }

  lemma RoundsNext(t: Tables, keys: seq<Word>, s: State, i: nat)
    requires i >= 1 && 4 * i + 4 <= |keys|
    ensures Rounds(t, keys, s, i) == Round(t, Rounds(t, keys, s, i - 1), Key(keys, i))
  {
  }

  lemma CipherEnd(t: Tables, keys: seq<Word>, nr: nat, s: State)
    requires nr >= 1 && 4 * nr + 4 <= |keys|
    ensures Cipher(t, keys, nr, s) == AddKey(Scramble(t, Rounds(t, keys, s, nr - 1)), Key(keys, nr))
  {
  }

  lemma InvRoundsStart(t: Tables, keys: seq<Word>, s: State)
    requires |keys| >= 4
    ensures InvRounds(t, keys, s, 0) == AddKey(s, Key(keys, 0))
  {
  }

  lemma InvRoundsNext(t: Tables, keys: seq<Word>, s: State, i: nat)
    requires i >= 1 && 4 * i + 4 <= |keys|
    ensures InvRounds(t, keys, s, i) == InvRound(t, InvRounds(t, keys, s, i - 1), Key(keys, i))
  {
  }

  lemma InvCipherEnd(t: Tables, keys: seq<Word>, nr: nat, s: State)
    requires nr >= 1 && 4 * nr + 4 <= |keys|
    ensures InvCipher(t, keys, nr, s) == AddKey(Unscramble(t, InvRounds(t, keys, s, nr - 1)), Key(keys, nr))
  {
  }

  /** p[i] = pack(&buff[4i]) ^ key[i]: byte r of column c of the state is buff[4c+r] (section 3.4 of FIPS 197). */
  method LoadColumns(p: array<Word>, buff: array<byte>, key: array<Word>)
    requires p.Length == 4 && buff.Length == 16 && key.Length >= 4 && p != key
    modifies p
    ensures StateOf(p) == AddKey(Block(buff[..]), Key(key[..], 0))
    ensures forall c :: 0 <= c < 4 ==>
      Packed(p[c]) == Pack(buff[4 * c], buff[4 * c + 1], buff[4 * c + 2], buff[4 * c + 3]) ^ Packed(key[c])
  {
    hide Packed, Pack, Xor;
    var i := 0;
    while i < 4
      invariant 0 <= i <= 4
      invariant forall l :: 0 <= l < i ==>
        p[l] == Xor(Word(buff[4 * l], buff[4 * l + 1], buff[4 * l + 2], buff[4 * l + 3]), key[l])
    {
      p[i] := Word(buff[4 * i], buff[4 * i + 1], buff[4 * i + 2], buff[4 * i + 3]);
      p[i] := Xor(p[i], key[i]);
      i := i + 1;
    }
    forall c | 0 <= c < 4
      ensures Packed(p[c]) == Pack(buff[4 * c], buff[4 * c + 1], buff[4 * c + 2], buff[4 * c + 3]) ^ Packed(key[c])
    {
      AddedColumn(buff[4 * c], buff[4 * c + 1], buff[4 * c + 2], buff[4 * c + 3], key[c]);
    }
  }

  lemma AddedColumn(b0: byte, b1: byte, b2: byte, b3: byte, k: Word)
    ensures Packed(Xor(Word(b0, b1, b2, b3), k)) == Pack(b0, b1, b2, b3) ^ Packed(k)
  {
    PackXor(b0, b1, b2, b3, k.b0, k.b1, k.b2, k.b3);
    hide Pack, X;
  }

  /** unpack(y[i], &buff[4i]) */
  method StoreColumns(y: array<Word>, buff: array<byte>)
    requires y.Length == 4 && buff.Length == 16
    modifies buff
    ensures buff[..] == BytesOf(old(StateOf(y)))
    ensures Pack(buff[0], buff[1], buff[2], buff[3]) == Packed(y[0])
    ensures Pack(buff[4], buff[5], buff[6], buff[7]) == Packed(y[1])
    ensures Pack(buff[8], buff[9], buff[10], buff[11]) == Packed(y[2])
    ensures Pack(buff[12], buff[13], buff[14], buff[15]) == Packed(y[3])
  {
    hide Pack, Packed;
    ghost var s := StateOf(y);
    var i := 0;
    while i < 4
      invariant 0 <= i <= 4
      invariant buff[..4 * i] == BytesOf(s)[..4 * i]
      modifies buff
    {
      ghost var before := buff[..4 * i];
      buff[4 * i], buff[4 * i + 1], buff[4 * i + 2], buff[4 * i + 3] := y[i].b0, y[i].b1, y[i].b2, y[i].b3;
      assert buff[..4 * i + 4] == before + Unpack(y[i]);
      ColumnBytes(s, i, y[i]);
      i := i + 1;
    }
    assert buff[..] == buff[..16] && BytesOf(s) == BytesOf(s)[..16];
    StoredColumns(s, buff[..]);
  }

  lemma StoredColumns(s: State, b: seq<byte>)
    requires b == BytesOf(s)
    ensures Pack(b[0], b[1], b[2], b[3]) == Packed(s.c0) && Pack(b[4], b[5], b[6], b[7]) == Packed(s.c1)
    ensures Pack(b[8], b[9], b[10], b[11]) == Packed(s.c2) && Pack(b[12], b[13], b[14], b[15]) == Packed(s.c3)
  {
    hide Pack;
  }

  lemma ColumnBytes(s: State, i: nat, c: Word)
    requires i < 4 && c == (if i == 0 then s.c0 else if i == 1 then s.c1 else if i == 2 then s.c2 else s.c3)
    ensures BytesOf(s)[..4 * i + 4] == BytesOf(s)[..4 * i] + Unpack(c)
  {
  }

  /** The body of the encryption loop. */
  method ForwardRound(t: Tables, x: array<Word>, y: array<Word>, key: array<Word>, k: nat, ghost i: nat)
    requires x.Length == y.Length == 4 && x != y && y != key && k + 4 <= key.Length && k == 4 * i && t.Mixed()
    modifies y
    ensures StateOf(y) == Round(t, old(StateOf(x)), Key(old(key[..]), i))
  {
    y[0] := Lookup(t.ftable, key[k], x[0].b0, x[1].b1, x[2].b2, x[3].b3);
    y[1] := Lookup(t.ftable, key[k + 1], x[1].b0, x[2].b1, x[3].b2, x[0].b3);
    y[2] := Lookup(t.ftable, key[k + 2], x[2].b0, x[3].b1, x[0].b2, x[1].b3);
    y[3] := Lookup(t.ftable, key[k + 3], x[3].b0, x[0].b1, x[1].b2, x[2].b3);
    hide Lookup, Tables.MixCol, MapBytes, Tables.Mixed, Xor;
    LookupMixes(t, key[k], x[0].b0, x[1].b1, x[2].b2, x[3].b3);
    LookupMixes(t, key[k + 1], x[1].b0, x[2].b1, x[3].b2, x[0].b3);
    LookupMixes(t, key[k + 2], x[2].b0, x[3].b1, x[0].b2, x[1].b3);
    LookupMixes(t, key[k + 3], x[3].b0, x[0].b1, x[1].b2, x[2].b3);
    ScrambledColumns(t, StateOf(x));
  }

  /** The last round of encryption: no mixing. */
  method LastForward(t: Tables, x: array<Word>, y: array<Word>, key: array<Word>, k: nat, ghost i: nat)
    requires x.Length == y.Length == 4 && x != y && y != key && k + 4 <= key.Length && k == 4 * i
    modifies y
    ensures StateOf(y) == AddKey(Scramble(t, old(StateOf(x))), Key(old(key[..]), i))
  {
    y[0] := Substitute(t.fbsub, key[k], x[0].b0, x[1].b1, x[2].b2, x[3].b3);
    y[1] := Substitute(t.fbsub, key[k + 1], x[1].b0, x[2].b1, x[3].b2, x[0].b3);
    y[2] := Substitute(t.fbsub, key[k + 2], x[2].b0, x[3].b1, x[0].b2, x[1].b3);
    y[3] := Substitute(t.fbsub, key[k + 3], x[3].b0, x[0].b1, x[1].b2, x[2].b3);
    hide Substitute, MapBytes, Xor;
    SubstituteOnly(t.fbsub, key[k], x[0].b0, x[1].b1, x[2].b2, x[3].b3);
    SubstituteOnly(t.fbsub, key[k + 1], x[1].b0, x[2].b1, x[3].b2, x[0].b3);
    SubstituteOnly(t.fbsub, key[k + 2], x[2].b0, x[3].b1, x[0].b2, x[1].b3);
    SubstituteOnly(t.fbsub, key[k + 3], x[3].b0, x[0].b1, x[1].b2, x[2].b3);
    ScrambledColumns(t, StateOf(x));
  }

  /** The columns of the scrambled state, as the lookups gather them. */
  lemma ScrambledColumns(t: Tables, s: State)
    ensures Scramble(t, s) == State(MapBytes(t.fbsub, Word(s.c0.b0, s.c1.b1, s.c2.b2, s.c3.b3)),
                                    MapBytes(t.fbsub, Word(s.c1.b0, s.c2.b1, s.c3.b2, s.c0.b3)),
                                    MapBytes(t.fbsub, Word(s.c2.b0, s.c3.b1, s.c0.b2, s.c1.b3)),
                                    MapBytes(t.fbsub, Word(s.c3.b0, s.c0.b1, s.c1.b2, s.c2.b3)))
  {
  }

  /** The body of the decryption loop. */
  method BackwardRound(t: Tables, x: array<Word>, y: array<Word>, key: array<Word>, k: nat, ghost i: nat)
    requires x.Length == y.Length == 4 && x != y && y != key && k + 4 <= key.Length && k == 4 * i && t.Mixed()
    modifies y
    ensures StateOf(y) == InvRound(t, old(StateOf(x)), Key(old(key[..]), i))
  {
    y[0] := Lookup(t.rtable, key[k], x[0].b0, x[3].b1, x[2].b2, x[1].b3);
    y[1] := Lookup(t.rtable, key[k + 1], x[1].b0, x[0].b1, x[3].b2, x[2].b3);
    y[2] := Lookup(t.rtable, key[k + 2], x[2].b0, x[1].b1, x[0].b2, x[3].b3);
    y[3] := Lookup(t.rtable, key[k + 3], x[3].b0, x[2].b1, x[1].b2, x[0].b3);
    hide Lookup, Tables.InvMixCol, MapBytes, Tables.Mixed, Xor;
    LookupUnmixes(t, key[k], x[0].b0, x[3].b1, x[2].b2, x[1].b3);
    LookupUnmixes(t, key[k + 1], x[1].b0, x[0].b1, x[3].b2, x[2].b3);
    LookupUnmixes(t, key[k + 2], x[2].b0, x[1].b1, x[0].b2, x[3].b3);
    LookupUnmixes(t, key[k + 3], x[3].b0, x[2].b1, x[1].b2, x[0].b3);
    UnscrambledColumns(t, StateOf(x));
  }

  /** The last round of decryption. */
  method LastBackward(t: Tables, x: array<Word>, y: array<Word>, key: array<Word>, k: nat, ghost i: nat)
    requires x.Length == y.Length == 4 && x != y && y != key && k + 4 <= key.Length && k == 4 * i
    modifies y
    ensures StateOf(y) == AddKey(Unscramble(t, old(StateOf(x))), Key(old(key[..]), i))
  {
    y[0] := Substitute(t.rbsub, key[k], x[0].b0, x[3].b1, x[2].b2, x[1].b3);
    y[1] := Substitute(t.rbsub, key[k + 1], x[1].b0, x[0].b1, x[3].b2, x[2].b3);
    y[2] := Substitute(t.rbsub, key[k + 2], x[2].b0, x[1].b1, x[0].b2, x[3].b3);
    y[3] := Substitute(t.rbsub, key[k + 3], x[3].b0, x[2].b1, x[1].b2, x[0].b3);
    hide Substitute, MapBytes, Xor;
    SubstituteOnly(t.rbsub, key[k], x[0].b0, x[3].b1, x[2].b2, x[1].b3);
    SubstituteOnly(t.rbsub, key[k + 1], x[1].b0, x[0].b1, x[3].b2, x[2].b3);
    SubstituteOnly(t.rbsub, key[k + 2], x[2].b0, x[1].b1, x[0].b2, x[3].b3);
    SubstituteOnly(t.rbsub, key[k + 3], x[3].b0, x[2].b1, x[1].b2, x[0].b3);
    UnscrambledColumns(t, StateOf(x));
  }

  lemma UnscrambledColumns(t: Tables, s: State)
    ensures Unscramble(t, s) == State(MapBytes(t.rbsub, Word(s.c0.b0, s.c3.b1, s.c2.b2, s.c1.b3)),
                                      MapBytes(t.rbsub, Word(s.c1.b0, s.c0.b1, s.c3.b2, s.c2.b3)),
                                      MapBytes(t.rbsub, Word(s.c2.b0, s.c1.b1, s.c0.b2, s.c3.b3)),
                                      MapBytes(t.rbsub, Word(s.c3.b0, s.c2.b1, s.c1.b2, s.c0.b3)))
  {
  }
}
