/** The mode-of-operation machine: a context with a chaining register, one block per call. */
module AesModes {
  import opened Arith
  import opened AesWord
  import opened AesCipher
  import opened AesCounter
  import opened Aes
  import AesTables

  // ---------------------------------------------------------------- modes

  const CBC := 1
  const CFB1 := 2
  const CFB2 := 3
  const CFB4 := 5
  const OFB1 := 14
  const OFB2 := 15
  const OFB4 := 17
  const OFB8 := 21
  const OFB16 := 29
  const CTR1 := 30
  const CTR2 := 31
  const CTR4 := 33
  const CTR8 := 37
  const CTR16 := 45

  predicate IsCFB(mode: int) {
    mode == CFB1 || mode == CFB2 || mode == CFB4
  }

  predicate IsOFB(mode: int) {
    mode == OFB1 || mode == OFB2 || mode == OFB4 || mode == OFB8 || mode == OFB16
  }

  predicate IsCTR(mode: int) {
    mode == CTR1 || mode == CTR2 || mode == CTR4 || mode == CTR8 || mode == CTR16
  }

  /** How many bytes of the buffer one call processes; none for an unsupported mode. */
  function Width(mode: int): (n: nat)
    ensures n <= 16
  {
    if mode == ECB || mode == CBC then 16
    else if IsCFB(mode) then mode - CFB1 + 1
    else if IsOFB(mode) then mode - OFB1 + 1
    else if IsCTR(mode) then mode - CTR1 + 1
    else 0
  }

  /** The number in the name of a mode is its width in bytes. */
  lemma ModeWidths()
    ensures Width(ECB) == Width(CBC) == 16
    ensures Width(CFB1) == Width(OFB1) == Width(CTR1) == 1 && Width(CFB2) == Width(OFB2) == Width(CTR2) == 2
    ensures Width(CFB4) == Width(OFB4) == Width(CTR4) == 4 && Width(OFB8) == Width(CTR8) == 8
    ensures Width(OFB16) == Width(CTR16) == 16
  {
  }

  // ---------------------------------------------------------------- one step, as a function

  function XorBytes(a: seq<byte>, b: seq<byte>): (c: seq<byte>)
    requires |a| <= |b|
    ensures |c| == |a|
  {
    seq(|a|, i requires 0 <= i < |a| => X(a[i], b[i]))
  }

  lemma XorBytesTwice(a: seq<byte>, b: seq<byte>)
    requires |a| <= |b|
    ensures XorBytes(XorBytes(a, b), b) == a
  {
    forall i | 0 <= i < |a| ensures X(X(a[i], b[i]), b[i]) == a[i] {
      ByteCancel(a[i], b[i]);
    }
  }

  /** A key schedule with its reversal. */
  datatype Keys = Keys(t: Tables, fkey: seq<Word>, rkey: seq<Word>, nr: nat) {
    predicate Sized() {
      nr >= 1 && 4 * nr + 4 <= |fkey| && 4 * nr + 4 <= |rkey|
    }

    ghost predicate Valid() {
      Sized() && t.Facts() && ReversedKeys(t, fkey, rkey, nr)
    }

    function E(b: seq<byte>): (c: seq<byte>)
      requires Sized() && |b| == 16
      ensures |c| == 16
    {
      Encipher(t, fkey, nr, b)
    }

    function D(c: seq<byte>): (b: seq<byte>)
      requires Sized() && |c| == 16
      ensures |b| == 16
    {
      Decipher(t, rkey, nr, c)
    }
  }

  /** The register and the block that AES_encrypt leaves behind. */
  function EncryptStep(k: Keys, mode: int, f: seq<byte>, p: seq<byte>): (r: (seq<byte>, seq<byte>))
    requires k.Sized() && |f| == 16 && |p| == Width(mode)
    ensures |r.0| == 16 && |r.1| == |p|
  {
    var n := Width(mode);
    if mode == ECB then (f, k.E(p))
    else if mode == CBC then var c := k.E(XorBytes(p, f)); (c, c)
    else if IsCFB(mode) then var c := XorBytes(p, k.E(f)); (f[n..] + c, c)
    else if IsOFB(mode) then (k.E(f), XorBytes(p, k.E(f)))
    else if IsCTR(mode) then (Next(f), XorBytes(p, k.E(f)))
    else (f, p)
  }

  /** And AES_decrypt. */
  function DecryptStep(k: Keys, mode: int, f: seq<byte>, c: seq<byte>): (r: (seq<byte>, seq<byte>))
    requires k.Sized() && |f| == 16 && |c| == Width(mode)
    ensures |r.0| == 16 && |r.1| == |c|
  {
    var n := Width(mode);
    if mode == ECB then (f, k.D(c))
    else if mode == CBC then (c, XorBytes(k.D(c), f))
    else if IsCFB(mode) then (f[n..] + c, XorBytes(c, k.E(f)))
    else if IsOFB(mode) then (k.E(f), XorBytes(c, k.E(f)))
    else if IsCTR(mode) then (Next(f), XorBytes(c, k.E(f)))
    else (f, c)
  }

  /** One block comes back, and the two registers stay equal. */
  lemma StepRoundTrip(k: Keys, mode: int, f: seq<byte>, p: seq<byte>)
    requires k.Valid() && |f| == 16 && |p| == Width(mode)
    ensures var r := EncryptStep(k, mode, f, p); DecryptStep(k, mode, f, r.1) == (r.0, p)
  {
    hide Encipher, Decipher, Tables.Facts, ReversedKeys, XorBytes;
    if mode == ECB {
      DecipherEncipher(k.t, k.fkey, k.rkey, k.nr, p);
    } else if mode == CBC {
      DecipherEncipher(k.t, k.fkey, k.rkey, k.nr, XorBytes(p, f));
      XorBytesTwice(p, f);
    } else {
      XorBytesTwice(p, k.E(f));
    }
  }

  // ---------------------------------------------------------------- whole runs

  predicate Blocks(mode: int, ps: seq<seq<byte>>) {
    forall i :: 0 <= i < |ps| ==> |ps[i]| == Width(mode)
  }

  /** The register and the ciphertext after encrypting a sequence of blocks. */
  function EncryptRun(k: Keys, mode: int, f: seq<byte>, ps: seq<seq<byte>>): (r: (seq<byte>, seq<seq<byte>>))
    requires k.Sized() && |f| == 16 && Blocks(mode, ps)
    ensures |r.0| == 16 && |r.1| == |ps| && Blocks(mode, r.1)
  {
    if |ps| == 0 then (f, [])
    else
      var before := EncryptRun(k, mode, f, ps[..|ps| - 1]);
      var last := EncryptStep(k, mode, before.0, ps[|ps| - 1]);
      (last.0, before.1 + [last.1])
  }

  function DecryptRun(k: Keys, mode: int, f: seq<byte>, cs: seq<seq<byte>>): (r: (seq<byte>, seq<seq<byte>>))
    requires k.Sized() && |f| == 16 && Blocks(mode, cs)
    ensures |r.0| == 16 && |r.1| == |cs| && Blocks(mode, r.1)
  {
    if |cs| == 0 then (f, [])
    else
      var before := DecryptRun(k, mode, f, cs[..|cs| - 1]);
      var last := DecryptStep(k, mode, before.0, cs[|cs| - 1]);
      (last.0, before.1 + [last.1])
  }

  lemma EncryptRunNext(k: Keys, mode: int, f: seq<byte>, ps: seq<seq<byte>>, p: seq<byte>)
    requires k.Sized() && |f| == 16 && Blocks(mode, ps) && |p| == Width(mode)
    ensures Blocks(mode, ps + [p])
    ensures var before := EncryptRun(k, mode, f, ps);
            var last := EncryptStep(k, mode, before.0, p);
            EncryptRun(k, mode, f, ps + [p]) == (last.0, before.1 + [last.1])
  {
    assert (ps + [p])[..|ps|] == ps;
    hide EncryptStep;
  }

  lemma DecryptRunNext(k: Keys, mode: int, f: seq<byte>, cs: seq<seq<byte>>, c: seq<byte>)
    requires k.Sized() && |f| == 16 && Blocks(mode, cs) && |c| == Width(mode)
    ensures Blocks(mode, cs + [c])
    ensures var before := DecryptRun(k, mode, f, cs);
            var last := DecryptStep(k, mode, before.0, c);
            DecryptRun(k, mode, f, cs + [c]) == (last.0, before.1 + [last.1])
  {
    assert (cs + [c])[..|cs|] == cs;
    hide DecryptStep;
  }

  /** In every mode and width, a context with the same starting register recovers every block; as this
      holds of every prefix of a run too, the two registers agree after each step. */
  lemma {:induction false} RunRoundTrip(k: Keys, mode: int, f: seq<byte>, ps: seq<seq<byte>>)
    requires k.Valid() && |f| == 16 && Blocks(mode, ps)
    ensures var r := EncryptRun(k, mode, f, ps); DecryptRun(k, mode, f, r.1) == (r.0, ps)
  {
    if |ps| > 0 {
      var n := |ps| - 1;
      var front, p := ps[..n], ps[n];
      assert ps == front + [p];
      assert k.Sized();
      RunRoundTrip(k, mode, f, front);
      hide *;
      EncryptRunNext(k, mode, f, front, p);
      var before := EncryptRun(k, mode, f, front);
      StepRoundTrip(k, mode, before.0, p);
      DecryptRunNext(k, mode, f, before.1, EncryptStep(k, mode, before.0, p).1);
    }
  }

  /** In counter mode the register counts the blocks. */
  lemma {:induction false} CounterRun(k: Keys, mode: int, f: seq<byte>, ps: seq<seq<byte>>)
    requires k.Sized() && IsCTR(mode) && |f| == 16 && Blocks(mode, ps)
    ensures EncryptRun(k, mode, f, ps).0 == Later(f, |ps|)
  {
    if |ps| > 0 {
      var n := |ps| - 1;
      assert ps == ps[..n] + [ps[n]];
      CounterRun(k, mode, f, ps[..n]);
      EncryptRunNext(k, mode, f, ps[..n], ps[n]);
      hide EncryptRun;
    }
  }

  /** So no two of at most 2^128 consecutive blocks are encrypted with the same counter. */
  lemma CountersInRun(k: Keys, mode: int, f: seq<byte>, ps: seq<seq<byte>>, i: nat, j: nat)
    requires k.Sized() && IsCTR(mode) && |f| == 16 && Blocks(mode, ps) && i < j <= |ps| && j - i < Pow(256, 16)
    ensures EncryptRun(k, mode, f, ps[..i]).0 != EncryptRun(k, mode, f, ps[..j]).0
  {
    CounterRun(k, mode, f, ps[..i]);
    CounterRun(k, mode, f, ps[..j]);
    CountersDiffer(f, i, j);
  }

  // ---------------------------------------------------------------- the bytes shifted out

  /** A char as an unsign32: where plain char is signed, its sign fills the upper bits. */
  function CharBits(signed: bool, b: byte): bv32 {
    if signed && b >= 0x80 then 0xffff_ff00 | (b as bv32) else b as bv32
  }

  /** Where char is signed, a byte above 127 stands for itself less 256, modulo 2^32. */
  lemma CharValues(b: byte)
    ensures CharBits(false, b) == b as bv32
    ensures CharBits(true, b) + (if b >= 0x80 then 0x100 else 0) == b as bv32
  {
  }

  /** (fell_off << 8) | b */
  function Append(signed: bool, fellOff: bv32, b: byte): bv32 {
    (fellOff << 8) | CharBits(signed, b)
  }

  function FellOff(signed: bool, f: seq<byte>): bv32 {
    if |f| == 0 then 0 else Append(signed, FellOff(signed, f[..|f| - 1]), f[|f| - 1])
  }

  /** What a call returns: in the CFB modes the bytes that the register loses. */
  function Returned(signed: bool, mode: int, f: seq<byte>): bv32
    requires |f| == 16
  {
    if IsCFB(mode) then FellOff(signed, f[..Width(mode)]) else 0
  }

  /** Where plain char is unsigned these are the lost bytes, the first one most significant. */
  lemma FellOffBytes(f: seq<byte>)
    requires |f| == 1 || |f| == 2 || |f| == 4
    ensures FellOff(false, f) == if |f| == 1 then Pack(f[0], 0, 0, 0)
                                 else if |f| == 2 then Pack(f[1], f[0], 0, 0)
                                 else Pack(f[3], f[2], f[1], f[0])
  {
    FellOffUpToFour(false, f);
  }

  /** Where it is signed the result is the same if and only if every byte above 127 among them is one of four
      and stands after bytes of 255 only. */
  lemma FellOffSigned(f: seq<byte>)
    requires |f| == 1 || |f| == 2 || |f| == 4
    ensures FellOff(true, f) == FellOff(false, f)
       <==> forall i :: 0 <= i < |f| && f[i] >= 0x80 ==> |f| == 4 && forall j :: 0 <= j < i ==> f[j] == 0xff
  {
    FellOffUpToFour(true, f);
    FellOffUpToFour(false, f);
    if |f| == 4 {
      FourSigned(f[0], f[1], f[2], f[3]);
    }
  }

  /** The loop unrolled. */
  function Joined(signed: bool, b0: byte, b1: byte, b2: byte, b3: byte): bv32 {
    Append(signed, Append(signed, Append(signed, CharBits(signed, b0), b1), b2), b3)
  }

  lemma FellOffUpToFour(signed: bool, f: seq<byte>)
    requires |f| == 1 || |f| == 2 || |f| == 4
    ensures FellOff(signed, f) == if |f| == 1 then CharBits(signed, f[0])
                                  else if |f| == 2 then Append(signed, CharBits(signed, f[0]), f[1])
                                  else Joined(signed, f[0], f[1], f[2], f[3])
  {
    assert FellOff(signed, []) == 0;
    assert f[..1][..0] == [] && FellOff(signed, f[..1]) == CharBits(signed, f[0]);
    if |f| > 1 {
      assert f[..2][..1] == f[..1];
      if |f| == 4 {
        assert f[..3][..2] == f[..2] && f[..4] == f;
      } else {
        assert f[..2] == f;
      }
    } else {
      assert f[..1] == f;
    }
  }

  lemma FourSigned(b0: byte, b1: byte, b2: byte, b3: byte)
    ensures Joined(true, b0, b1, b2, b3) == Joined(false, b0, b1, b2, b3)
       <==> && (b1 >= 0x80 ==> b0 == 0xff)
            && (b2 >= 0x80 ==> b0 == 0xff && b1 == 0xff)
            && (b3 >= 0x80 ==> b0 == 0xff && b1 == 0xff && b2 == 0xff)
  {
    if b3 >= 0x80 {
      LastNegative(b0, b1, b2, b3);
    } else if b2 >= 0x80 {
      ThirdNegative(b0, b1, b2, b3);
    } else if b1 >= 0x80 {
      SecondNegative(b0, b1, b2, b3);
    } else {
      NoneNegative(b0, b1, b2, b3);
    }
  }

  lemma LastNegative(b0: byte, b1: byte, b2: byte, b3: byte)
    requires b3 >= 0x80
    ensures Joined(true, b0, b1, b2, b3) == Joined(false, b0, b1, b2, b3) <==> b0 == 0xff && b1 == 0xff && b2 == 0xff
  {
  }

  lemma ThirdNegative(b0: byte, b1: byte, b2: byte, b3: byte)
    requires b2 >= 0x80 && b3 < 0x80
    ensures Joined(true, b0, b1, b2, b3) == Joined(false, b0, b1, b2, b3) <==> b0 == 0xff && b1 == 0xff
  {
  }

  lemma SecondNegative(b0: byte, b1: byte, b2: byte, b3: byte)
    requires b1 >= 0x80 && b2 < 0x80 && b3 < 0x80
    ensures Joined(true, b0, b1, b2, b3) == Joined(false, b0, b1, b2, b3) <==> b0 == 0xff
  {
  }

  lemma NoneNegative(b0: byte, b1: byte, b2: byte, b3: byte)
    requires b1 < 0x80 && b2 < 0x80 && b3 < 0x80
    ensures Joined(true, b0, b1, b2, b3) == Joined(false, b0, b1, b2, b3)
  {
  }

  // ---------------------------------------------------------------- the calls

  ghost function KeysOf(t: Tables, a: Context): Keys
    requires a.Shape() && 4 * a.nr + 4 <= 60
    reads a, a.fkey, a.rkey
  {
    Keys(t, a.fkey[..4 * a.nr + 4], a.rkey[..4 * a.nr + 4], a.nr)
  }

  /** The schedules of a key of 16, 24 or 32 bytes. */
  function KeysFor(t: Tables, key: seq<byte>, nk: nat): (k: Keys)
    requires KeyWords(nk) && 4 * nk <= |key|
    ensures k.Sized()
  {
    var fkey := Expansion(t, CipherKey(key, nk), 4 * nk + 28);
    Keys(t, fkey, Reversal(t, fkey, nk + 6), nk + 6)
  }

  /** They are what AES_init leaves in the context, and decryption with them is sound. */
  lemma KeysInContext(t: Tables, key: seq<byte>, nk: nat, fkey: seq<Word>, rkey: seq<Word>)
    requires KeyWords(nk) && 4 * nk <= |key| && |fkey| == |rkey| == 60
    requires Schedule(t, CipherKey(key, nk), fkey, 4 * nk + 28) && ReversedKeys(t, fkey, rkey, nk + 6)
    ensures Keys(t, fkey[..4 * nk + 28], rkey[..4 * nk + 28], nk + 6) == KeysFor(t, key, nk)
    ensures t.Facts() ==> KeysFor(t, key, nk).Valid()
  {
    ScheduleUnique(t, CipherKey(key, nk), fkey, 4 * nk + 28);
    var m := 4 * nk + 28;
    assert ReversedKeys(t, fkey[..m], rkey, nk + 6) by { ReversedPrefix(t, fkey, rkey, nk + 6, m); }
    ReversalUnique(t, fkey[..m], rkey, nk + 6);
    hide Expansion, Tables.Facts, Reversal, CipherKey;
    ReversedPrefix(t, fkey, rkey, nk + 6, m);
  }

  /** Every key gives schedules with which decryption undoes encryption. */
  lemma KeysForValid(t: Tables, key: seq<byte>, nk: nat)
    requires t.Facts() && KeyWords(nk) && 4 * nk <= |key|
    ensures KeysFor(t, key, nk).Valid()
  {
    ReversalReverses(t, Expansion(t, CipherKey(key, nk), 4 * nk + 28), nk + 6);
    hide Expansion, Reversal, ReversedKeys, Tables.Facts, CipherKey;
  }

  /** With the tables of the program, under every key and in every mode, from the same starting register:
      every block comes back, and the registers agree. */
  lemma ModesRoundTrip(key: seq<byte>, nk: nat, mode: int, f: seq<byte>, ps: seq<seq<byte>>)
    requires KeyWords(nk) && 4 * nk <= |key| && |f| == 16 && Blocks(mode, ps)
    ensures var k := KeysFor(AesTables.Constants(), key, nk);
            var r := EncryptRun(k, mode, f, ps);
            DecryptRun(k, mode, f, r.1) == (r.0, ps)
  {
    AesTables.ConstantsFacts();
    hide *;
    KeysForValid(AesTables.Constants(), key, nk);
    RunRoundTrip(KeysFor(AesTables.Constants(), key, nk), mode, f, ps);
  }

  lemma ReversedPrefix(t: Tables, fkey: seq<Word>, rkey: seq<Word>, nr: nat, m: nat)
    requires m == 4 * nr + 4 && m <= |fkey| && m <= |rkey| && ReversedKeys(t, fkey, rkey, nr)
    ensures ReversedKeys(t, fkey[..m], rkey, nr) && ReversedKeys(t, fkey[..m], rkey[..m], nr)
  {
    forall i | 0 <= i <= nr ensures Key(fkey[..m], i) == Key(fkey, i) && Key(rkey[..m], i) == Key(rkey, i) {
    }
    hide InvMixColumns;
  }

  /** The context is set up and buff is the part of the caller's buffer that a call in its mode
      touches. */
  ghost predicate Callable(t: Tables, a: Context, buff: array<byte>)
    reads a
  {
    a.Shape() && a.nr >= 1 && 4 * a.nr + 4 <= 60 && t.Mixed() && buff != a.f && buff.Length == Width(a.mode)
  }

  /** for (j = 0; j < n; j++) buff[j] ^= st[j] */
  method XorInto(buff: array<byte>, st: array<byte>)
    requires buff != st && buff.Length <= st.Length
    modifies buff
    ensures buff[..] == XorBytes(old(buff[..]), old(st[..]))
  {
    var j := 0;
    while j < buff.Length
      invariant 0 <= j <= buff.Length
      invariant forall l :: 0 <= l < buff.Length ==> buff[l] == if l < j then X(old(buff[l]), st[l]) else old(buff[l])
    {
      buff[j] := X(buff[j], st[j]);
      j := j + 1;
    }
  }

  /** for (j = 0; j < 16; j++) st[j] = f[j] */
  method CopyBlock(st: array<byte>, f: array<byte>)
    requires st.Length == f.Length == 16 && st != f
    modifies st
    ensures st[..] == old(f[..])
  {
    var j := 0;
    while j < 16
      invariant 0 <= j <= 16 && forall l :: 0 <= l < j ==> st[l] == f[l]
    {
      st[j] := f[j];
      j := j + 1;
    }
  }

  /** for (j = n; j < 16; j++) f[j-n] = f[j] */
  method ShiftRegister(f: array<byte>, n: nat)
    requires f.Length == 16 && 1 <= n <= 16
    modifies f
    ensures f[..16 - n] == old(f[n..])
  {
    var j := n;
    while j < 16
      invariant n <= j <= 16
      invariant forall l :: 0 <= l < j - n ==> f[l] == old(f[l + n])
      invariant forall l :: j - n <= l < 16 ==> f[l] == old(f[l])
    {
      f[j - n] := f[j];
      j := j + 1;
    }
  }

  /** for (j = 0; j < n; j++) fell_off = (fell_off << 8) | f[j] */
  method ShiftedOut(signed: bool, f: array<byte>, n: nat) returns (out: bv32)
    requires n <= f.Length
    ensures out == FellOff(signed, f[..n])
  {
    hide Append;
    out := 0;
    for j := 0 to n
      invariant out == FellOff(signed, f[..j])
    {
      assert f[..j + 1][..j] == f[..j];
      out := Append(signed, out, f[j]);
    }
  }

  /** CFB encryption: buff[j] ^= st[j]; f[16-n+j] = buff[j] */
  method FeedEncrypted(f: array<byte>, buff: array<byte>, st: array<byte>)
    requires f.Length == st.Length == 16 && buff.Length <= 16 && f != buff && f != st && buff != st
    modifies f, buff
    ensures buff[..] == XorBytes(old(buff[..]), old(st[..]))
    ensures f[..] == old(f[..16 - buff.Length]) + buff[..]
  {
    var n := buff.Length;
    var j := 0;
    while j < n
      invariant 0 <= j <= n
      invariant forall l :: 0 <= l < n ==> buff[l] == if l < j then X(old(buff[l]), st[l]) else old(buff[l])
      invariant forall l :: 16 - n <= l < 16 - n + j ==> f[l] == buff[l - (16 - n)]
      invariant forall l :: 0 <= l < 16 - n ==> f[l] == old(f[l])
    {
      buff[j] := X(buff[j], st[j]);
      f[16 - n + j] := buff[j];
      j := j + 1;
    }
  }

  /** CFB decryption: f[16-n+j] = buff[j]; buff[j] ^= st[j] */
  method FeedReceived(f: array<byte>, buff: array<byte>, st: array<byte>)
    requires f.Length == st.Length == 16 && buff.Length <= 16 && f != buff && f != st && buff != st
    modifies f, buff
    ensures buff[..] == XorBytes(old(buff[..]), old(st[..]))
    ensures f[..] == old(f[..16 - buff.Length]) + old(buff[..])
  {
    var n := buff.Length;
    ghost var c := buff[..];
    var j := 0;
    while j < n
      invariant 0 <= j <= n
      invariant forall l :: 0 <= l < n ==> buff[l] == if l < j then X(c[l], st[l]) else c[l]
      invariant forall l :: 16 - n <= l < 16 - n + j ==> f[l] == c[l - (16 - n)]
      invariant forall l :: 0 <= l < 16 - n ==> f[l] == old(f[l])
    {
      f[16 - n + j] := buff[j];
      buff[j] := X(buff[j], st[j]);
      j := j + 1;
    }
  }

  /** CBC decryption: st[j] = f[j]; f[j] = buff[j] */
  method TakeRegister(st: array<byte>, f: array<byte>, buff: array<byte>)
    requires st.Length == f.Length == buff.Length == 16 && st != f && st != buff && f != buff
    modifies st, f
    ensures st[..] == old(f[..]) && f[..] == old(buff[..])
  {
    var j := 0;
    while j < 16
      invariant 0 <= j <= 16 && forall l :: 0 <= l < j ==> st[l] == old(f[l])
      invariant forall l :: 0 <= l < 16 ==> f[l] == if l < j then buff[l] else old(f[l])
    {
      st[j] := f[j];
      f[j] := buff[j];
      j := j + 1;
    }
  }

  method EncryptCFB(t: Tables, a: Context, buff: array<byte>, signed: bool) returns (out: bv32)
    requires Callable(t, a, buff) && IsCFB(a.mode)
    modifies a.f, buff
    ensures (a.f[..], buff[..]) == EncryptStep(KeysOf(t, a), a.mode, old(a.f[..]), old(buff[..]))
    ensures out == Returned(signed, a.mode, old(a.f[..]))
  {
    hide Encipher, XorBytes, FellOff;
    assert a.f[..][..buff.Length] == a.f[..buff.Length];
    out := ShiftedOut(signed, a.f, buff.Length);
    var st := new byte[16];
    CopyBlock(st, a.f);
    ShiftRegister(a.f, buff.Length);
    a.EcbEncrypt(t, st);
    FeedEncrypted(a.f, buff, st);
  }

  method ApplyCTR(t: Tables, a: Context, buff: array<byte>)
    requires Callable(t, a, buff) && IsCTR(a.mode)
    modifies a.f, buff
    ensures (a.f[..], buff[..]) == EncryptStep(KeysOf(t, a), a.mode, old(a.f[..]), old(buff[..]))
    ensures (a.f[..], buff[..]) == DecryptStep(KeysOf(t, a), a.mode, old(a.f[..]), old(buff[..]))
  {
    hide Encipher, XorBytes, Next;
    var st := new byte[16];
    CopyBlock(st, a.f);
    a.EcbEncrypt(t, st);
    XorInto(buff, st);
    Increment(a.f);
  }

  method EncryptCBC(t: Tables, a: Context, buff: array<byte>)
    requires Callable(t, a, buff) && a.mode == CBC
    modifies a.f, buff
    ensures (a.f[..], buff[..]) == EncryptStep(KeysOf(t, a), a.mode, old(a.f[..]), old(buff[..]))
  {
    hide Encipher, XorBytes;
    XorInto(buff, a.f);
    a.EcbEncrypt(t, buff);
    CopyBlock(a.f, buff);
  }

  method ApplyOFB(t: Tables, a: Context, buff: array<byte>)
    requires Callable(t, a, buff) && IsOFB(a.mode)
    modifies a.f, buff
    ensures (a.f[..], buff[..]) == EncryptStep(KeysOf(t, a), a.mode, old(a.f[..]), old(buff[..]))
    ensures (a.f[..], buff[..]) == DecryptStep(KeysOf(t, a), a.mode, old(a.f[..]), old(buff[..]))
  {
    hide Encipher, XorBytes;
    a.EcbEncrypt(t, a.f);
    XorInto(buff, a.f);
  }

  /** AES_encrypt; signed says whether plain char is. */
  method Encrypt(t: Tables, a: Context, buff: array<byte>, signed: bool) returns (out: bv32)
    requires Callable(t, a, buff)
    modifies a.f, buff
    ensures (a.f[..], buff[..]) == EncryptStep(KeysOf(t, a), a.mode, old(a.f[..]), old(buff[..]))
    ensures out == Returned(signed, a.mode, old(a.f[..]))
  {
    out := 0;
    if a.mode == ECB {
      a.EcbEncrypt(t, buff);
    } else if a.mode == CBC {
      EncryptCBC(t, a, buff);
    } else if IsCFB(a.mode) {
      out := EncryptCFB(t, a, buff, signed);
    } else if IsOFB(a.mode) {
      ApplyOFB(t, a, buff);
    } else if IsCTR(a.mode) {
      ApplyCTR(t, a, buff);
    }
  }

  method DecryptCBC(t: Tables, a: Context, buff: array<byte>)
    requires Callable(t, a, buff) && a.mode == CBC
    modifies a.f, buff
    ensures (a.f[..], buff[..]) == DecryptStep(KeysOf(t, a), a.mode, old(a.f[..]), old(buff[..]))
  {
    hide Decipher, XorBytes;
    var st := new byte[16];
    TakeRegister(st, a.f, buff);
    a.EcbDecrypt(t, buff);
    XorInto(buff, st);
  }

  method DecryptCFB(t: Tables, a: Context, buff: array<byte>, signed: bool) returns (out: bv32)
    requires Callable(t, a, buff) && IsCFB(a.mode)
    modifies a.f, buff
    ensures (a.f[..], buff[..]) == DecryptStep(KeysOf(t, a), a.mode, old(a.f[..]), old(buff[..]))
    ensures out == Returned(signed, a.mode, old(a.f[..]))
  {
    hide Encipher, XorBytes, FellOff;
    assert a.f[..][..buff.Length] == a.f[..buff.Length];
    out := ShiftedOut(signed, a.f, buff.Length);
    var st := new byte[16];
    CopyBlock(st, a.f);
    ShiftRegister(a.f, buff.Length);
    a.EcbEncrypt(t, st);
    FeedReceived(a.f, buff, st);
  }

  /** AES_decrypt; signed says whether plain char is. */
  method Decrypt(t: Tables, a: Context, buff: array<byte>, signed: bool) returns (out: bv32)
    requires Callable(t, a, buff)
    modifies a.f, buff
    ensures (a.f[..], buff[..]) == DecryptStep(KeysOf(t, a), a.mode, old(a.f[..]), old(buff[..]))
    ensures out == Returned(signed, a.mode, old(a.f[..]))
  {
    out := 0;
    if a.mode == ECB {
      a.EcbDecrypt(t, buff);
    } else if a.mode == CBC {
      DecryptCBC(t, a, buff);
    } else if IsCFB(a.mode) {
      out := DecryptCFB(t, a, buff, signed);
    } else if IsOFB(a.mode) {
      ApplyOFB(t, a, buff);
    } else if IsCTR(a.mode) {
      ApplyCTR(t, a, buff);
    }
  }
}
