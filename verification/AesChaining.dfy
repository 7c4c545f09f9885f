/** What whole runs in each mode compute, block by block and byte by byte (NIST SP 800-38A, section 6), in terms of the
    block cipher alone. */
module AesChaining {
  import opened AesWord
  import opened Aes
  import opened AesCounter
  import opened AesModes

  // ---------------------------------------------------------------- one block of a run

  lemma {:induction false} EncryptedBlock(k: Keys, mode: int, f: seq<byte>, ps: seq<seq<byte>>, i: nat)
    requires k.Sized() && |f| == 16 && Blocks(mode, ps) && i < |ps|
    ensures var r := EncryptStep(k, mode, EncryptRun(k, mode, f, ps[..i]).0, ps[i]);
            EncryptRun(k, mode, f, ps).1[i] == r.1 && EncryptRun(k, mode, f, ps[..i + 1]).0 == r.0
    decreases |ps|
  {
    var n := |ps| - 1;
    hide EncryptStep;
    assert ps[..n] + [ps[n]] == ps;
    EncryptRunNext(k, mode, f, ps[..i], ps[i]);
    assert ps[..i] + [ps[i]] == ps[..i + 1];
    if i < n {
      EncryptedBlock(k, mode, f, ps[..n], i);
      assert ps[..n][..i] == ps[..i];
      EncryptRunNext(k, mode, f, ps[..n], ps[n]);
    } else {
      assert ps[..i + 1] == ps;
    }
  }

  lemma {:induction false} DecryptedBlock(k: Keys, mode: int, f: seq<byte>, cs: seq<seq<byte>>, i: nat)
    requires k.Sized() && |f| == 16 && Blocks(mode, cs) && i < |cs|
    ensures var r := DecryptStep(k, mode, DecryptRun(k, mode, f, cs[..i]).0, cs[i]);
            DecryptRun(k, mode, f, cs).1[i] == r.1 && DecryptRun(k, mode, f, cs[..i + 1]).0 == r.0
    decreases |cs|
  {
    var n := |cs| - 1;
    hide DecryptStep;
    assert cs[..n] + [cs[n]] == cs;
    DecryptRunNext(k, mode, f, cs[..i], cs[i]);
    assert cs[..i] + [cs[i]] == cs[..i + 1];
    if i < n {
      DecryptedBlock(k, mode, f, cs[..n], i);
      assert cs[..n][..i] == cs[..i];
      DecryptRunNext(k, mode, f, cs[..n], cs[n]);
    } else {
      assert cs[..i + 1] == cs;
    }
  }

  lemma NoBlocks(k: Keys, mode: int, f: seq<byte>, ps: seq<seq<byte>>)
    requires k.Sized() && |f| == 16 && Blocks(mode, ps)
    ensures EncryptRun(k, mode, f, ps[..0]).0 == f && DecryptRun(k, mode, f, ps[..0]).0 == f
    ensures ps[..|ps|] == ps
  {
  }

  /** In the modes that make a key stream: one byte of one block. */
  lemma StreamByte(k: Keys, mode: int, f: seq<byte>, p: seq<byte>, j: nat)
    requires k.Sized() && (IsCFB(mode) || IsOFB(mode) || IsCTR(mode)) && |f| == 16 && |p| == Width(mode) && j < |p|
    ensures EncryptStep(k, mode, f, p).1[j] == X(p[j], Encipher(k.t, k.fkey, k.nr, f)[j])
    ensures DecryptStep(k, mode, f, p).1[j] == X(p[j], Encipher(k.t, k.fkey, k.nr, f)[j])
  {
    hide Encipher, Next, X;
  }

  /** And the register after it. */
  lemma StreamRegister(k: Keys, mode: int, f: seq<byte>, p: seq<byte>)
    requires k.Sized() && |f| == 16 && |p| == Width(mode)
    ensures IsOFB(mode) ==> EncryptStep(k, mode, f, p).0 == Encipher(k.t, k.fkey, k.nr, f)
    ensures IsOFB(mode) ==> DecryptStep(k, mode, f, p).0 == Encipher(k.t, k.fkey, k.nr, f)
    ensures IsCTR(mode) ==> EncryptStep(k, mode, f, p).0 == DecryptStep(k, mode, f, p).0 == Next(f)
    ensures IsCFB(mode) ==> EncryptStep(k, mode, f, p).0 == f[|p|..] + EncryptStep(k, mode, f, p).1
    ensures IsCFB(mode) ==> DecryptStep(k, mode, f, p).0 == f[|p|..] + p
  {
    hide Encipher, Decipher, Next, XorBytes;
  }

  // ---------------------------------------------------------------- ECB

  lemma EcbBlocks(k: Keys, f: seq<byte>, ps: seq<seq<byte>>, i: nat)
    requires k.Sized() && |f| == 16 && Blocks(ECB, ps) && i < |ps|
    ensures EncryptRun(k, ECB, f, ps).1[i] == Encipher(k.t, k.fkey, k.nr, ps[i])
    ensures DecryptRun(k, ECB, f, ps).1[i] == Decipher(k.t, k.rkey, k.nr, ps[i])
  {
    EncryptedBlock(k, ECB, f, ps, i);
    DecryptedBlock(k, ECB, f, ps, i);
    hide Encipher, Decipher, EncryptRun, DecryptRun;
  }

  // ---------------------------------------------------------------- CBC

  /** The block before block i: the register for the first one. */
  function Previous(f: seq<byte>, cs: seq<seq<byte>>, i: nat): seq<byte>
    requires i <= |cs|
  {
    if i == 0 then f else cs[i - 1]
  }

  lemma CbcRegister(k: Keys, f: seq<byte>, ps: seq<seq<byte>>, i: nat)
    requires k.Sized() && |f| == 16 && Blocks(CBC, ps) && i <= |ps|
    ensures EncryptRun(k, CBC, f, ps[..i]).0 == Previous(f, EncryptRun(k, CBC, f, ps).1, i)
    ensures DecryptRun(k, CBC, f, ps[..i]).0 == Previous(f, ps, i)
  {
    if i == 0 {
      NoBlocks(k, CBC, f, ps);
    } else {
      EncryptedBlock(k, CBC, f, ps, i - 1);
      DecryptedBlock(k, CBC, f, ps, i - 1);
    }
    hide Encipher, Decipher, EncryptRun, DecryptRun, XorBytes;
  }

  lemma CbcStep(k: Keys, f: seq<byte>, p: seq<byte>)
    requires k.Sized() && |f| == 16 && |p| == 16
    ensures EncryptStep(k, CBC, f, p).1
         == Encipher(k.t, k.fkey, k.nr, seq(16, j requires 0 <= j < 16 => X(p[j], f[j])))
  {
    hide Encipher, X;
    assert XorBytes(p, f) == seq(16, j requires 0 <= j < 16 => X(p[j], f[j]));
  }

  /** Each block is enciphered after being added to the ciphertext block before it. */
  lemma CbcEncrypts(k: Keys, f: seq<byte>, ps: seq<seq<byte>>, i: nat)
    requires k.Sized() && |f| == 16 && Blocks(CBC, ps) && i < |ps|
    ensures var cs := EncryptRun(k, CBC, f, ps).1;
            && |Previous(f, cs, i)| == |ps[i]| == 16
            && cs[i] == Encipher(k.t, k.fkey, k.nr,
                                 seq(16, j requires 0 <= j < 16 => X(ps[i][j], Previous(f, cs, i)[j])))
    ensures EncryptRun(k, CBC, f, ps).0 == Previous(f, EncryptRun(k, CBC, f, ps).1, |ps|)
  {
    var cs := EncryptRun(k, CBC, f, ps).1;
    NoBlocks(k, CBC, f, ps);
    CbcRegister(k, f, ps, i);
    CbcRegister(k, f, ps, |ps|);
    EncryptedBlock(k, CBC, f, ps, i);
    assert |ps[i]| == 16;
    hide EncryptStep, EncryptRun, Encipher, X, Width, Previous;
    CbcStep(k, Previous(f, cs, i), ps[i]);
  }

  lemma CbcDecrypts(k: Keys, f: seq<byte>, cs: seq<seq<byte>>, i: nat, j: nat)
    requires k.Sized() && |f| == 16 && Blocks(CBC, cs) && i < |cs| && j < 16
    ensures |Previous(f, cs, i)| == |cs[i]| == 16
    ensures DecryptRun(k, CBC, f, cs).1[i][j] == X(Decipher(k.t, k.rkey, k.nr, cs[i])[j], Previous(f, cs, i)[j])
    ensures DecryptRun(k, CBC, f, cs).0 == Previous(f, cs, |cs|)
  {
    NoBlocks(k, CBC, f, cs);
    CbcRegister(k, f, cs, i);
    CbcRegister(k, f, cs, |cs|);
    DecryptedBlock(k, CBC, f, cs, i);
    hide Decipher, DecryptRun;
  }

  // ---------------------------------------------------------------- CFB

  function Joined(cs: seq<seq<byte>>): seq<byte> {
    if |cs| == 0 then [] else Joined(cs[..|cs| - 1]) + cs[|cs| - 1]
  }

  /** The last sixteen bytes of s. */
  function LastBlock(s: seq<byte>): (r: seq<byte>)
    requires |s| >= 16
    ensures |r| == 16
  {
    s[|s| - 16..]
  }

  lemma Feed(f: seq<byte>, s: seq<byte>, c: seq<byte>)
    requires |f| == 16 && |c| <= 16
    ensures LastBlock(f + s)[|c|..] + c == LastBlock(f + (s + c))
  {
  }

  /** The register holds the last sixteen bytes of the initial one and of the ciphertext so far. */
  lemma {:induction false} CfbRegister(k: Keys, mode: int, f: seq<byte>, ps: seq<seq<byte>>, i: nat)
    requires k.Sized() && IsCFB(mode) && |f| == 16 && Blocks(mode, ps) && i <= |ps|
    ensures EncryptRun(k, mode, f, ps[..i]).0 == LastBlock(f + Joined(EncryptRun(k, mode, f, ps).1[..i]))
    decreases i
  {
    hide EncryptStep, DecryptStep, EncryptRun, DecryptRun, Encipher, Width;
    var cs := EncryptRun(k, mode, f, ps).1;
    if i == 0 {
      NoBlocks(k, mode, f, ps);
      assert f + [] == f;
    } else {
      CfbRegister(k, mode, f, ps, i - 1);
      EncryptedBlock(k, mode, f, ps, i - 1);
      StreamRegister(k, mode, EncryptRun(k, mode, f, ps[..i - 1]).0, ps[i - 1]);
      Feed(f, Joined(cs[..i - 1]), cs[i - 1]);
      assert cs[..i][..i - 1] == cs[..i - 1];
    }
  }

  lemma {:induction false} CfbDecryptRegister(k: Keys, mode: int, f: seq<byte>, cs: seq<seq<byte>>, i: nat)
    requires k.Sized() && IsCFB(mode) && |f| == 16 && Blocks(mode, cs) && i <= |cs|
    ensures DecryptRun(k, mode, f, cs[..i]).0 == LastBlock(f + Joined(cs[..i]))
    decreases i
  {
    hide EncryptStep, DecryptStep, EncryptRun, DecryptRun, Encipher, Width;
    if i == 0 {
      NoBlocks(k, mode, f, cs);
      assert f + [] == f;
    } else {
      CfbDecryptRegister(k, mode, f, cs, i - 1);
      DecryptedBlock(k, mode, f, cs, i - 1);
      StreamRegister(k, mode, DecryptRun(k, mode, f, cs[..i - 1]).0, cs[i - 1]);
      Feed(f, Joined(cs[..i - 1]), cs[i - 1]);
      assert cs[..i][..i - 1] == cs[..i - 1];
    }
  }

  lemma CfbBytes(k: Keys, mode: int, f: seq<byte>, ps: seq<seq<byte>>, i: nat, j: nat)
    requires k.Sized() && IsCFB(mode) && |f| == 16 && Blocks(mode, ps) && i < |ps| && j < |ps[i]|
    ensures var cs := EncryptRun(k, mode, f, ps).1;
            cs[i][j] == X(ps[i][j], Encipher(k.t, k.fkey, k.nr, LastBlock(f + Joined(cs[..i])))[j])
    ensures DecryptRun(k, mode, f, ps).1[i][j]
         == X(ps[i][j], Encipher(k.t, k.fkey, k.nr, LastBlock(f + Joined(ps[..i])))[j])
  {
    hide EncryptStep, DecryptStep, EncryptRun, DecryptRun, Encipher, X, Width;
    CfbRegister(k, mode, f, ps, i);
    CfbDecryptRegister(k, mode, f, ps, i);
    EncryptedBlock(k, mode, f, ps, i);
    DecryptedBlock(k, mode, f, ps, i);
    StreamByte(k, mode, EncryptRun(k, mode, f, ps[..i]).0, ps[i], j);
    StreamByte(k, mode, DecryptRun(k, mode, f, ps[..i]).0, ps[i], j);
  }

  // ---------------------------------------------------------------- OFB

  /** f enciphered i times */
  function Enciphered(k: Keys, f: seq<byte>, i: nat): (r: seq<byte>)
    requires k.Sized() && |f| == 16
    ensures |r| == 16
  {
    if i == 0 then f else Encipher(k.t, k.fkey, k.nr, Enciphered(k, f, i - 1))
  }

  lemma {:induction false} OfbRegister(k: Keys, mode: int, f: seq<byte>, ps: seq<seq<byte>>, i: nat)
    requires k.Sized() && IsOFB(mode) && |f| == 16 && Blocks(mode, ps) && i <= |ps|
    ensures EncryptRun(k, mode, f, ps[..i]).0 == DecryptRun(k, mode, f, ps[..i]).0 == Enciphered(k, f, i)
    decreases i
  {
    hide EncryptStep, DecryptStep, EncryptRun, DecryptRun, Encipher, Width;
    if i == 0 {
      NoBlocks(k, mode, f, ps);
    } else {
      OfbRegister(k, mode, f, ps, i - 1);
      EncryptedBlock(k, mode, f, ps, i - 1);
      DecryptedBlock(k, mode, f, ps, i - 1);
      StreamRegister(k, mode, EncryptRun(k, mode, f, ps[..i - 1]).0, ps[i - 1]);
    }
  }

  lemma OfbBytes(k: Keys, mode: int, f: seq<byte>, ps: seq<seq<byte>>, i: nat, j: nat)
    requires k.Sized() && IsOFB(mode) && |f| == 16 && Blocks(mode, ps) && i < |ps| && j < |ps[i]|
    ensures EncryptRun(k, mode, f, ps).1[i][j] == X(ps[i][j], Enciphered(k, f, i + 1)[j])
    ensures DecryptRun(k, mode, f, ps).1[i][j] == X(ps[i][j], Enciphered(k, f, i + 1)[j])
  {
    hide EncryptStep, DecryptStep, EncryptRun, DecryptRun, Encipher, X, Width;
    OfbRegister(k, mode, f, ps, i);
    EncryptedBlock(k, mode, f, ps, i);
    DecryptedBlock(k, mode, f, ps, i);
    StreamByte(k, mode, EncryptRun(k, mode, f, ps[..i]).0, ps[i], j);
  }

  // ---------------------------------------------------------------- CTR

  lemma {:induction false} CtrRegister(k: Keys, mode: int, f: seq<byte>, ps: seq<seq<byte>>, i: nat)
    requires k.Sized() && IsCTR(mode) && |f| == 16 && Blocks(mode, ps) && i <= |ps|
    ensures EncryptRun(k, mode, f, ps[..i]).0 == DecryptRun(k, mode, f, ps[..i]).0 == Later(f, i)
    decreases i
  {
    hide EncryptStep, DecryptStep, EncryptRun, DecryptRun, Encipher, Next, Width;
    if i == 0 {
      NoBlocks(k, mode, f, ps);
    } else {
      CtrRegister(k, mode, f, ps, i - 1);
      EncryptedBlock(k, mode, f, ps, i - 1);
      DecryptedBlock(k, mode, f, ps, i - 1);
      StreamRegister(k, mode, EncryptRun(k, mode, f, ps[..i - 1]).0, ps[i - 1]);
    }
  }

  lemma CtrBytes(k: Keys, mode: int, f: seq<byte>, ps: seq<seq<byte>>, i: nat, j: nat)
    requires k.Sized() && IsCTR(mode) && |f| == 16 && Blocks(mode, ps) && i < |ps| && j < |ps[i]|
    ensures EncryptRun(k, mode, f, ps).1[i][j] == X(ps[i][j], Encipher(k.t, k.fkey, k.nr, Later(f, i))[j])
    ensures DecryptRun(k, mode, f, ps).1[i][j] == X(ps[i][j], Encipher(k.t, k.fkey, k.nr, Later(f, i))[j])
  {
    hide EncryptStep, DecryptStep, EncryptRun, DecryptRun, Encipher, X, Width;
    CtrRegister(k, mode, f, ps, i);
    EncryptedBlock(k, mode, f, ps, i);
    DecryptedBlock(k, mode, f, ps, i);
    StreamByte(k, mode, EncryptRun(k, mode, f, ps[..i]).0, ps[i], j);
  }
}
