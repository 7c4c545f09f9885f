/** The example of appendix C.3 of FIPS 197 (2001): the key of 32 bytes 00, 01, ..., 1f and the block
    00, 11, ..., ff. */
module AesExample {
  import opened AesWord
  import opened AesCipher
  import opened Aes
  import opened AesModes
  import opened AesTables

  // ---------------------------------------------------------------- one round, without the logarithm tables

  /** MixColumns and the key, on a substituted column. */
  function MixedColumn(x: Word, k: Word): Word {
    Word(X(X(X(X(By2(x.b0), By3(x.b1)), x.b2), x.b3), k.b0), X(X(X(X(x.b0, By2(x.b1)), By3(x.b2)), x.b3), k.b1),
         X(X(X(X(x.b0, x.b1), By2(x.b2)), By3(x.b3)), k.b2), X(X(X(X(By3(x.b0), x.b1), x.b2), By2(x.b3)), k.b3))
  }

  function Sub(x: Word): Word {
    Word(Fbsub(x.b0), Fbsub(x.b1), Fbsub(x.b2), Fbsub(x.b3))
  }

  lemma RoundIs(s: State, k: State)
    ensures Round(Constants(), s, k)
         == State(MixedColumn(Sub(Word(s.c0.b0, s.c1.b1, s.c2.b2, s.c3.b3)), k.c0),
                  MixedColumn(Sub(Word(s.c1.b0, s.c2.b1, s.c3.b2, s.c0.b3)), k.c1),
                  MixedColumn(Sub(Word(s.c2.b0, s.c3.b1, s.c0.b2, s.c1.b3)), k.c2),
                  MixedColumn(Sub(Word(s.c3.b0, s.c0.b1, s.c1.b2, s.c2.b3)), k.c3))
  {
    var m := Scramble(Constants(), s);
    assert Constants().fbsub == Fbsub;
    MixBytes(m.c0);
    MixBytes(m.c1);
    MixBytes(m.c2);
    MixBytes(m.c3);
    hide Constants, Fbsub, X, By2, By3, Tables.MixCol;
  }

  // ---------------------------------------------------------------- the states

  const S0 := State(Word(0x00, 0x10, 0x20, 0x30), Word(0x40, 0x50, 0x60, 0x70),
                    Word(0x80, 0x90, 0xa0, 0xb0), Word(0xc0, 0xd0, 0xe0, 0xf0))
  const S1 := State(Word(0x4f, 0x63, 0x76, 0x06), Word(0x43, 0xe0, 0xaa, 0x85),
                    Word(0xef, 0xa7, 0x21, 0x32), Word(0x01, 0xa4, 0xe7, 0x05))
  const S2 := State(Word(0x18, 0x59, 0xfb, 0xc2), Word(0x8a, 0x1c, 0x00, 0xa0),
                    Word(0x78, 0xed, 0x8a, 0xad), Word(0xc4, 0x2f, 0x61, 0x09))
  const S3 := State(Word(0x97, 0x5c, 0x66, 0xc1), Word(0xcb, 0x9f, 0x3f, 0xa8),
                    Word(0xa9, 0x3a, 0x28, 0xdf), Word(0x8e, 0xe1, 0x0f, 0x63))
  const S4 := State(Word(0x1c, 0x05, 0xf2, 0x71), Word(0xa4, 0x17, 0xe0, 0x4f),
                    Word(0xf9, 0x21, 0xc5, 0xc1), Word(0x04, 0x70, 0x15, 0x54))
  const S5 := State(Word(0xc3, 0x57, 0xaa, 0xe1), Word(0x1b, 0x45, 0xb7, 0xb0),
                    Word(0xa2, 0xc7, 0xbd, 0x28), Word(0xa8, 0xdc, 0x99, 0xfa))
  const S6 := State(Word(0x7f, 0x07, 0x41, 0x43), Word(0xcb, 0x4e, 0x24, 0x3e),
                    Word(0xc1, 0x0c, 0x81, 0x5d), Word(0x83, 0x75, 0xd5, 0x4c))
  const S7 := State(Word(0xd6, 0x53, 0xa4, 0x69), Word(0x6c, 0xa0, 0xbc, 0x0f),
                    Word(0x5a, 0xca, 0xab, 0x5d), Word(0xb9, 0x6c, 0x5e, 0x7d))
  const S8 := State(Word(0x5a, 0xa8, 0x58, 0x39), Word(0x5f, 0xd2, 0x8d, 0x7d),
                    Word(0x05, 0xe1, 0xa3, 0x88), Word(0x68, 0xf3, 0xb9, 0xc5))
  const S9 := State(Word(0x4a, 0x82, 0x48, 0x51), Word(0xc5, 0x7e, 0x7e, 0x47),
                    Word(0x64, 0x3d, 0xe5, 0x0c), Word(0x2a, 0xf3, 0xe8, 0xc9))
  const S10 := State(Word(0xc1, 0x49, 0x07, 0xf6), Word(0xca, 0x3b, 0x3a, 0xa0),
                     Word(0x70, 0xe9, 0xaa, 0x31), Word(0x3b, 0x52, 0xb5, 0xec))
  const S11 := State(Word(0x5f, 0x9c, 0x6a, 0xbf), Word(0xba, 0xc6, 0x34, 0xaa),
                     Word(0x50, 0x40, 0x9f, 0xa7), Word(0x66, 0x67, 0x76, 0x53))
  const S12 := State(Word(0x51, 0x66, 0x04, 0x95), Word(0x43, 0x53, 0x95, 0x03),
                     Word(0x14, 0xfb, 0x86, 0xe4), Word(0x01, 0x92, 0x25, 0x21))
  const S13 := State(Word(0x62, 0x7b, 0xce, 0xb9), Word(0x99, 0x9d, 0x5a, 0xaa),
                     Word(0xc9, 0x45, 0xec, 0xf4), Word(0x23, 0xf5, 0x6d, 0xa5))
  const S14 := State(Word(0x8e, 0xa2, 0xb7, 0xca), Word(0x51, 0x67, 0x45, 0xbf),
                     Word(0xea, 0xfc, 0x49, 0x90), Word(0x4b, 0x49, 0x60, 0x89))

  const K0 := State(Word(0x00, 0x01, 0x02, 0x03), Word(0x04, 0x05, 0x06, 0x07),
                    Word(0x08, 0x09, 0x0a, 0x0b), Word(0x0c, 0x0d, 0x0e, 0x0f))
  const K1 := State(Word(0x10, 0x11, 0x12, 0x13), Word(0x14, 0x15, 0x16, 0x17),
                    Word(0x18, 0x19, 0x1a, 0x1b), Word(0x1c, 0x1d, 0x1e, 0x1f))
  const K2 := State(Word(0xa5, 0x73, 0xc2, 0x9f), Word(0xa1, 0x76, 0xc4, 0x98),
                    Word(0xa9, 0x7f, 0xce, 0x93), Word(0xa5, 0x72, 0xc0, 0x9c))
  const K3 := State(Word(0x16, 0x51, 0xa8, 0xcd), Word(0x02, 0x44, 0xbe, 0xda),
                    Word(0x1a, 0x5d, 0xa4, 0xc1), Word(0x06, 0x40, 0xba, 0xde))
  const K4 := State(Word(0xae, 0x87, 0xdf, 0xf0), Word(0x0f, 0xf1, 0x1b, 0x68),
                    Word(0xa6, 0x8e, 0xd5, 0xfb), Word(0x03, 0xfc, 0x15, 0x67))
  const K5 := State(Word(0x6d, 0xe1, 0xf1, 0x48), Word(0x6f, 0xa5, 0x4f, 0x92),
                    Word(0x75, 0xf8, 0xeb, 0x53), Word(0x73, 0xb8, 0x51, 0x8d))
  const K6 := State(Word(0xc6, 0x56, 0x82, 0x7f), Word(0xc9, 0xa7, 0x99, 0x17),
                    Word(0x6f, 0x29, 0x4c, 0xec), Word(0x6c, 0xd5, 0x59, 0x8b))
  const K7 := State(Word(0x3d, 0xe2, 0x3a, 0x75), Word(0x52, 0x47, 0x75, 0xe7),
                    Word(0x27, 0xbf, 0x9e, 0xb4), Word(0x54, 0x07, 0xcf, 0x39))
  const K8 := State(Word(0x0b, 0xdc, 0x90, 0x5f), Word(0xc2, 0x7b, 0x09, 0x48),
                    Word(0xad, 0x52, 0x45, 0xa4), Word(0xc1, 0x87, 0x1c, 0x2f))
  const K9 := State(Word(0x45, 0xf5, 0xa6, 0x60), Word(0x17, 0xb2, 0xd3, 0x87),
                    Word(0x30, 0x0d, 0x4d, 0x33), Word(0x64, 0x0a, 0x82, 0x0a))
  const K10 := State(Word(0x7c, 0xcf, 0xf7, 0x1c), Word(0xbe, 0xb4, 0xfe, 0x54),
                     Word(0x13, 0xe6, 0xbb, 0xf0), Word(0xd2, 0x61, 0xa7, 0xdf))
  const K11 := State(Word(0xf0, 0x1a, 0xfa, 0xfe), Word(0xe7, 0xa8, 0x29, 0x79),
                     Word(0xd7, 0xa5, 0x64, 0x4a), Word(0xb3, 0xaf, 0xe6, 0x40))
  const K12 := State(Word(0x25, 0x41, 0xfe, 0x71), Word(0x9b, 0xf5, 0x00, 0x25),
                     Word(0x88, 0x13, 0xbb, 0xd5), Word(0x5a, 0x72, 0x1c, 0x0a))
  const K13 := State(Word(0x4e, 0x5a, 0x66, 0x99), Word(0xa9, 0xf2, 0x4f, 0xe0),
                     Word(0x7e, 0x57, 0x2b, 0xaa), Word(0xcd, 0xf8, 0xcd, 0xea))
  const K14 := State(Word(0x24, 0xfc, 0x79, 0xcc), Word(0xbf, 0x09, 0x79, 0xe9),
                     Word(0x37, 0x1a, 0xc2, 0x3c), Word(0x6d, 0x68, 0xde, 0x36))

  lemma Round1()
    ensures Round(Constants(), S0, K1) == S1
  {
    RoundIs(S0, K1);
    hide Round;
  }

  lemma Round2()
    ensures Round(Constants(), S1, K2) == S2
  {
    RoundIs(S1, K2);
    hide Round;
  }

  lemma Round3()
    ensures Round(Constants(), S2, K3) == S3
  {
    RoundIs(S2, K3);
    hide Round;
  }

  lemma Round4()
    ensures Round(Constants(), S3, K4) == S4
  {
    RoundIs(S3, K4);
    hide Round;
  }

  lemma Round5()
    ensures Round(Constants(), S4, K5) == S5
  {
    RoundIs(S4, K5);
    hide Round;
  }

  lemma Round6()
    ensures Round(Constants(), S5, K6) == S6
  {
    RoundIs(S5, K6);
    hide Round;
  }

  lemma Round7()
    ensures Round(Constants(), S6, K7) == S7
  {
    RoundIs(S6, K7);
    hide Round;
  }

  lemma Round8()
    ensures Round(Constants(), S7, K8) == S8
  {
    RoundIs(S7, K8);
    hide Round;
  }

  lemma Round9()
    ensures Round(Constants(), S8, K9) == S9
  {
    RoundIs(S8, K9);
    hide Round;
  }

  lemma Round10()
    ensures Round(Constants(), S9, K10) == S10
  {
    RoundIs(S9, K10);
    hide Round;
  }

  lemma Round11()
    ensures Round(Constants(), S10, K11) == S11
  {
    RoundIs(S10, K11);
    hide Round;
  }

  lemma Round12()
    ensures Round(Constants(), S11, K12) == S12
  {
    RoundIs(S11, K12);
    hide Round;
  }

  lemma Round13()
    ensures Round(Constants(), S12, K13) == S13
  {
    RoundIs(S12, K13);
    hide Round;
  }

  // ---------------------------------------------------------------- the key expansion

  const KEY: seq<byte> :=
    [0x00, 0x01, 0x02, 0x03, 0x04, 0x05, 0x06, 0x07, 0x08, 0x09, 0x0a, 0x0b, 0x0c, 0x0d, 0x0e, 0x0f,
     0x10, 0x11, 0x12, 0x13, 0x14, 0x15, 0x16, 0x17, 0x18, 0x19, 0x1a, 0x1b, 0x1c, 0x1d, 0x1e, 0x1f]

  const BLOCK: seq<byte> :=
    [0x00, 0x11, 0x22, 0x33, 0x44, 0x55, 0x66, 0x77, 0x88, 0x99, 0xaa, 0xbb, 0xcc, 0xdd, 0xee, 0xff]

  const WORDS: seq<Word> := CipherKey(KEY, 8)

  const KEYS: Keys := KeysFor(Constants(), KEY, 8)

  const START: State := Block(BLOCK)

  const RESULT: seq<byte> :=
    [0x8e, 0xa2, 0xb7, 0xca, 0x51, 0x67, 0x45, 0xbf, 0xea, 0xfc, 0x49, 0x90, 0x4b, 0x49, 0x60, 0x89]

  /** The next key of an expansion for a key of eight words, from the two before it: with a round constant, */
  function EvenKey(a: State, b: State, c: byte): State {
    var c0 := Xor(Xor(a.c0, Sub(Rotl24(b.c3))), Word(c, 0, 0, 0));
    var c1 := Xor(a.c1, c0);
    var c2 := Xor(a.c2, c1);
    State(c0, c1, c2, Xor(a.c3, c2))
  }

  /** and without. */
  function OddKey(a: State, b: State): State {
    var c0 := Xor(a.c0, Sub(b.c3));
    var c1 := Xor(a.c1, c0);
    var c2 := Xor(a.c2, c1);
    State(c0, c1, c2, Xor(a.c3, c2))
  }

  lemma FirstWordIs(key: seq<Word>, keys: seq<Word>, g: nat)
    requires |key| == 8 && 1 <= g <= 7 && Schedule(Constants(), key, keys, 60)
    ensures g - 1 < |RCO|
    ensures keys[8 * g] == Xor(Xor(keys[8 * g - 8], Sub(Rotl24(keys[8 * g - 1]))), Word(RCO[g - 1], 0, 0, 0))
  {
    var t := Constants();
    assert t.fbsub == Fbsub;
    hide Constants, Fbsub, Xor, Expanded, RCO;
    FirstExpanded(t, key, keys, 8, 8 * g, g - 1);
  }

  lemma EvenKeyIs(key: seq<Word>, keys: seq<Word>, g: nat, c: byte)
    requires |key| == 8 && 1 <= g <= 7 && Schedule(Constants(), key, keys, 60) && g - 1 < |RCO| && c == RCO[g - 1]
    ensures Key(keys, 2 * g) == EvenKey(Key(keys, 2 * g - 2), Key(keys, 2 * g - 1), c)
  {
    var t := Constants();
    hide Constants, Sub, Xor, Expanded, RCO;
    FirstWordIs(key, keys, g);
    ChainExpanded(t, key, keys, 8, 8 * g, g - 1, 1);
    ChainExpanded(t, key, keys, 8, 8 * g, g - 1, 2);
    ChainExpanded(t, key, keys, 8, 8 * g, g - 1, 3);
  }

  lemma FifthWordIs(key: seq<Word>, keys: seq<Word>, g: nat)
    requires |key| == 8 && 1 <= g <= 6 && Schedule(Constants(), key, keys, 60)
    ensures keys[8 * g + 4] == Xor(keys[8 * g - 4], Sub(keys[8 * g + 3]))
  {
    var t := Constants();
    assert t.fbsub == Fbsub;
    hide Constants, Fbsub, Xor, Expanded, RCO;
    FifthExpanded(t, key, keys, 8 * g, g - 1);
  }

  lemma OddKeyIs(key: seq<Word>, keys: seq<Word>, g: nat)
    requires |key| == 8 && 1 <= g <= 6 && Schedule(Constants(), key, keys, 60)
    ensures Key(keys, 2 * g + 1) == OddKey(Key(keys, 2 * g - 1), Key(keys, 2 * g))
  {
    var t := Constants();
    hide Constants, Sub, Xor, Expanded, RCO;
    FifthWordIs(key, keys, g);
    ChainExpanded(t, key, keys, 8, 8 * g, g - 1, 5);
    ChainExpanded(t, key, keys, 8, 8 * g, g - 1, 6);
    ChainExpanded(t, key, keys, 8, 8 * g, g - 1, 7);
  }

  lemma Group1()
    ensures EvenKey(K0, K1, 0x01) == K2
    ensures OddKey(K1, K2) == K3
  {
  }

  lemma Group2()
    ensures EvenKey(K2, K3, 0x02) == K4
    ensures OddKey(K3, K4) == K5
  {
  }

  lemma Group3()
    ensures EvenKey(K4, K5, 0x04) == K6
    ensures OddKey(K5, K6) == K7
  {
  }

  lemma Group4()
    ensures EvenKey(K6, K7, 0x08) == K8
    ensures OddKey(K7, K8) == K9
  {
  }

  lemma Group5()
    ensures EvenKey(K8, K9, 0x10) == K10
    ensures OddKey(K9, K10) == K11
  {
  }

  lemma Group6()
    ensures EvenKey(K10, K11, 0x20) == K12
    ensures OddKey(K11, K12) == K13
  {
  }

  lemma Group7()
    ensures EvenKey(K12, K13, 0x40) == K14
  {
  }

  lemma FirstWords(keys: seq<Word>)
    requires |KEY| == 32 && |keys| >= 60 && IsSchedule(Constants(), KEY, 8, keys)
    ensures keys[0] == Word(KEY[0], KEY[1], KEY[2], KEY[3])
    ensures keys[1] == Word(KEY[4], KEY[5], KEY[6], KEY[7])
    ensures keys[2] == Word(KEY[8], KEY[9], KEY[10], KEY[11])
    ensures keys[3] == Word(KEY[12], KEY[13], KEY[14], KEY[15])
    ensures keys[4] == Word(KEY[16], KEY[17], KEY[18], KEY[19])
    ensures keys[5] == Word(KEY[20], KEY[21], KEY[22], KEY[23])
    ensures keys[6] == Word(KEY[24], KEY[25], KEY[26], KEY[27])
    ensures keys[7] == Word(KEY[28], KEY[29], KEY[30], KEY[31])
  {
    hide Xor, SubByte, Rotl24, RCO, KEY;
  }

  lemma KeyBytes()
    ensures |KEY| == 32
    ensures Word(KEY[0], KEY[1], KEY[2], KEY[3]) == K0.c0
    ensures Word(KEY[4], KEY[5], KEY[6], KEY[7]) == K0.c1
    ensures Word(KEY[8], KEY[9], KEY[10], KEY[11]) == K0.c2
    ensures Word(KEY[12], KEY[13], KEY[14], KEY[15]) == K0.c3
    ensures Word(KEY[16], KEY[17], KEY[18], KEY[19]) == K1.c0
    ensures Word(KEY[20], KEY[21], KEY[22], KEY[23]) == K1.c1
    ensures Word(KEY[24], KEY[25], KEY[26], KEY[27]) == K1.c2
    ensures Word(KEY[28], KEY[29], KEY[30], KEY[31]) == K1.c3
  {
  }

  lemma FirstConstants()
    ensures |RCO| == 16 && RCO[0] == 1 && RCO[1] == 2 && RCO[2] == 4 && RCO[3] == 8 && RCO[4] == 16 && RCO[5] == 32
    ensures RCO[6] == 64
  {
  }

  /** The words of the expansion, two keys at a time. */
  lemma Keys0(keys: seq<Word>)
    requires |WORDS| == 8 && Schedule(Constants(), WORDS, keys, 60)
    ensures Key(keys, 0) == K0 && Key(keys, 1) == K1
  {
    ScheduleWords(Constants(), KEY, 8, keys);
    KeyBytes();
    hide Schedule, IsSchedule, KEY;
    FirstWords(keys);
  }

  lemma Keys1(keys: seq<Word>)
    requires |WORDS| == 8 && Schedule(Constants(), WORDS, keys, 60)
    ensures Key(keys, 2) == K2 && Key(keys, 3) == K3
  {
    Keys0(keys);
    hide *;
    FirstConstants();
    EvenKeyIs(WORDS, keys, 1, 0x01);
    OddKeyIs(WORDS, keys, 1);
    Group1();
  }

  lemma Keys2(keys: seq<Word>)
    requires |WORDS| == 8 && Schedule(Constants(), WORDS, keys, 60)
    ensures Key(keys, 4) == K4 && Key(keys, 5) == K5
  {
    Keys1(keys);
    hide *;
    FirstConstants();
    EvenKeyIs(WORDS, keys, 2, 0x02);
    OddKeyIs(WORDS, keys, 2);
    Group2();
  }

  lemma Keys3(keys: seq<Word>)
    requires |WORDS| == 8 && Schedule(Constants(), WORDS, keys, 60)
    ensures Key(keys, 6) == K6 && Key(keys, 7) == K7
  {
    Keys2(keys);
    hide *;
    FirstConstants();
    EvenKeyIs(WORDS, keys, 3, 0x04);
    OddKeyIs(WORDS, keys, 3);
    Group3();
  }

  lemma Keys4(keys: seq<Word>)
    requires |WORDS| == 8 && Schedule(Constants(), WORDS, keys, 60)
    ensures Key(keys, 8) == K8 && Key(keys, 9) == K9
  {
    Keys3(keys);
    hide *;
    FirstConstants();
    EvenKeyIs(WORDS, keys, 4, 0x08);
    OddKeyIs(WORDS, keys, 4);
    Group4();
  }

  lemma Keys5(keys: seq<Word>)
    requires |WORDS| == 8 && Schedule(Constants(), WORDS, keys, 60)
    ensures Key(keys, 10) == K10 && Key(keys, 11) == K11
  {
    Keys4(keys);
    hide *;
    FirstConstants();
    EvenKeyIs(WORDS, keys, 5, 0x10);
    OddKeyIs(WORDS, keys, 5);
    Group5();
  }

  lemma Keys6(keys: seq<Word>)
    requires |WORDS| == 8 && Schedule(Constants(), WORDS, keys, 60)
    ensures Key(keys, 12) == K12 && Key(keys, 13) == K13
  {
    Keys5(keys);
    hide *;
    FirstConstants();
    EvenKeyIs(WORDS, keys, 6, 0x20);
    OddKeyIs(WORDS, keys, 6);
    Group6();
  }

  lemma Keys7(keys: seq<Word>)
    requires |WORDS| == 8 && Schedule(Constants(), WORDS, keys, 60)
    ensures Key(keys, 14) == K14
  {
    Keys6(keys);
    hide *;
    FirstConstants();
    EvenKeyIs(WORDS, keys, 7, 0x40);
    Group7();
  }

  // ---------------------------------------------------------------- the example

  lemma FirstState(keys: seq<Word>)
    requires |keys| == 60 && Key(keys, 0) == K0
    ensures Rounds(Constants(), keys, START, 0) == S0
  {
    hide Constants;
  }

  lemma LastIs(s: State, k: State)
    ensures AddKey(Scramble(Constants(), s), k)
         == State(Xor(Sub(Word(s.c0.b0, s.c1.b1, s.c2.b2, s.c3.b3)), k.c0),
                  Xor(Sub(Word(s.c1.b0, s.c2.b1, s.c3.b2, s.c0.b3)), k.c1),
                  Xor(Sub(Word(s.c2.b0, s.c3.b1, s.c0.b2, s.c1.b3)), k.c2),
                  Xor(Sub(Word(s.c3.b0, s.c0.b1, s.c1.b2, s.c2.b3)), k.c3))
  {
    assert Constants().fbsub == Fbsub;
    hide Constants, Fbsub, Xor;
  }

  lemma Round14()
    ensures AddKey(Scramble(Constants(), S13), K14) == S14
  {
    LastIs(S13, K14);
    hide AddKey, Scramble;
  }

  lemma LastBytes()
    ensures BytesOf(S14) == RESULT
  {
  }

  lemma After1(keys: seq<Word>)
    requires |WORDS| == 8 && |keys| == 60 && Schedule(Constants(), WORDS, keys, 60)
    ensures Rounds(Constants(), keys, START, 1) == S1
  {
    hide *;
    Keys0(keys);
    FirstState(keys);
    RoundsNext(Constants(), keys, START, 1);
    Keys0(keys);
    Round1();
  }

  lemma After2(keys: seq<Word>)
    requires |WORDS| == 8 && |keys| == 60 && Schedule(Constants(), WORDS, keys, 60)
    ensures Rounds(Constants(), keys, START, 2) == S2
  {
    hide *;
    After1(keys);
    RoundsNext(Constants(), keys, START, 2);
    Keys1(keys);
    Round2();
  }

  lemma After3(keys: seq<Word>)
    requires |WORDS| == 8 && |keys| == 60 && Schedule(Constants(), WORDS, keys, 60)
    ensures Rounds(Constants(), keys, START, 3) == S3
  {
    hide *;
    After2(keys);
    RoundsNext(Constants(), keys, START, 3);
    Keys1(keys);
    Round3();
  }

  lemma After4(keys: seq<Word>)
    requires |WORDS| == 8 && |keys| == 60 && Schedule(Constants(), WORDS, keys, 60)
    ensures Rounds(Constants(), keys, START, 4) == S4
  {
    hide *;
    After3(keys);
    RoundsNext(Constants(), keys, START, 4);
    Keys2(keys);
    Round4();
  }

  lemma After5(keys: seq<Word>)
    requires |WORDS| == 8 && |keys| == 60 && Schedule(Constants(), WORDS, keys, 60)
    ensures Rounds(Constants(), keys, START, 5) == S5
  {
    hide *;
    After4(keys);
    RoundsNext(Constants(), keys, START, 5);
    Keys2(keys);
    Round5();
  }

  lemma After6(keys: seq<Word>)
    requires |WORDS| == 8 && |keys| == 60 && Schedule(Constants(), WORDS, keys, 60)
    ensures Rounds(Constants(), keys, START, 6) == S6
  {
    hide *;
    After5(keys);
    RoundsNext(Constants(), keys, START, 6);
    Keys3(keys);
    Round6();
  }

  lemma After7(keys: seq<Word>)
    requires |WORDS| == 8 && |keys| == 60 && Schedule(Constants(), WORDS, keys, 60)
    ensures Rounds(Constants(), keys, START, 7) == S7
  {
    hide *;
    After6(keys);
    RoundsNext(Constants(), keys, START, 7);
    Keys3(keys);
    Round7();
  }

  lemma After8(keys: seq<Word>)
    requires |WORDS| == 8 && |keys| == 60 && Schedule(Constants(), WORDS, keys, 60)
    ensures Rounds(Constants(), keys, START, 8) == S8
  {
    hide *;
    After7(keys);
    RoundsNext(Constants(), keys, START, 8);
    Keys4(keys);
    Round8();
  }

  lemma After9(keys: seq<Word>)
    requires |WORDS| == 8 && |keys| == 60 && Schedule(Constants(), WORDS, keys, 60)
    ensures Rounds(Constants(), keys, START, 9) == S9
  {
    hide *;
    After8(keys);
    RoundsNext(Constants(), keys, START, 9);
    Keys4(keys);
    Round9();
  }

  lemma After10(keys: seq<Word>)
    requires |WORDS| == 8 && |keys| == 60 && Schedule(Constants(), WORDS, keys, 60)
    ensures Rounds(Constants(), keys, START, 10) == S10
  {
    hide *;
    After9(keys);
    RoundsNext(Constants(), keys, START, 10);
    Keys5(keys);
    Round10();
  }

  lemma After11(keys: seq<Word>)
    requires |WORDS| == 8 && |keys| == 60 && Schedule(Constants(), WORDS, keys, 60)
    ensures Rounds(Constants(), keys, START, 11) == S11
  {
    hide *;
    After10(keys);
    RoundsNext(Constants(), keys, START, 11);
    Keys5(keys);
    Round11();
  }

  lemma After12(keys: seq<Word>)
    requires |WORDS| == 8 && |keys| == 60 && Schedule(Constants(), WORDS, keys, 60)
    ensures Rounds(Constants(), keys, START, 12) == S12
  {
    hide *;
    After11(keys);
    RoundsNext(Constants(), keys, START, 12);
    Keys6(keys);
    Round12();
  }

  lemma After13(keys: seq<Word>)
    requires |WORDS| == 8 && |keys| == 60 && Schedule(Constants(), WORDS, keys, 60)
    ensures Rounds(Constants(), keys, START, 13) == S13
  {
    hide *;
    After12(keys);
    RoundsNext(Constants(), keys, START, 13);
    Keys6(keys);
    Round13();
  }

  lemma LastRound(keys: seq<Word>)
    requires |WORDS| == 8 && |keys| == 60 && Schedule(Constants(), WORDS, keys, 60)
    ensures BytesOf(Cipher(Constants(), keys, 14, START)) == RESULT
  {
    hide *;
    After13(keys);
    Keys7(keys);
    CipherEnd(Constants(), keys, 14, START);
    Round14();
    LastBytes();
  }

  lemma KeysAre()
    ensures |WORDS| == 8 && |BLOCK| == |RESULT| == 16
    ensures KEYS.Sized() && KEYS.Valid() && KEYS.t == Constants() && KEYS.nr == 14
    ensures |KEYS.fkey| == 60 && Schedule(Constants(), WORDS, KEYS.fkey, 60)
  {
    hide Constants, Schedule, Expansion, Reversal, CipherKey, Keys.Valid, Tables.Facts;
    ExpansionFollows(Constants(), WORDS, 60);
    ConstantsFacts();
    KeysForValid(Constants(), KEY, 8);
  }

  /** AES_init and AES_ecb_encrypt give the result of the standard, and AES_ecb_decrypt the block. */
  lemma Example()
    ensures KEYS.Sized() && |BLOCK| == |RESULT| == 16
    ensures KEYS.E(BLOCK) == RESULT && KEYS.D(RESULT) == BLOCK
  {
    KeysAre();
    hide *;
    Enciphering(KEYS);
    Deciphering(KEYS);
    LastRound(KEYS.fkey);
  }

  lemma Enciphering(k: Keys)
    requires k.Sized()
    ensures |BLOCK| == 16 && k.E(BLOCK) == BytesOf(Cipher(k.t, k.fkey, k.nr, START))
  {
    hide Cipher, Block, BytesOf;
  }

  lemma Deciphering(k: Keys)
    requires k.Valid()
    ensures |BLOCK| == 16 && k.D(k.E(BLOCK)) == BLOCK
  {
    DecipherEncipher(k.t, k.fkey, k.rkey, k.nr, BLOCK);
    hide Encipher, Decipher, ReversedKeys, Tables.Facts;
  }
}
