/** What the CBC functions compute, block by block and byte by byte, in terms of the block cipher alone. */
module AesMessages {
  import opened AesWord
  import opened Aes
  import opened AesModes
  import opened AesCbc

  // ---------------------------------------------------------------- padding

  /** The padded message is the message and then from one to sixteen bytes, up to whole blocks, that hold their
      number. */
  lemma PadBytes(m: seq<byte>, j: nat)
    requires j < |Pad(m)|
    ensures 1 <= |Pad(m)| - |m| <= 16 && |Pad(m)| % 16 == 0
    ensures Pad(m)[j] as int == if j < |m| then m[j] as int else |Pad(m)| - |m|
  {
  }

  lemma ByteOfInt(b: byte)
    ensures b as int as byte == b
  {
  }

  lemma PadOf(m: seq<byte>, n: nat)
    requires 1 <= n <= 16 && (|m| + n) % 16 == 0
    ensures Pad(m) == m + Padding(n)
  {
    assert PadLength(|m|) == n;
    hide Padding;
  }

  lemma Repad(s: seq<byte>)
    requires |s| % 16 == 0 && Padded(s)
    ensures s == Pad(Unpad(s))
  {
    var n := s[|s| - 1] as int;
    var m := Unpad(s);
    PadOf(m, n);
    ByteOfInt(s[|s| - 1]);
    hide Pad;
    assert s[|s| - n..] == Padding(n);
    assert s == m + s[|s| - n..];
  }

  /** What is recognised as padded is padded: exactly the padded messages are. */
  lemma PadUnpad(s: seq<byte>)
    requires |s| % 16 == 0
    ensures Padded(s) <==> exists m :: s == Pad(m)
    ensures Padded(s) ==> s == Pad(Unpad(s))
  {
    if Padded(s) {
      Repad(s);
    }
    hide Padded, Pad, Unpad;
    if m :| s == Pad(m) {
      UnpadPad(m);
    }
  }

  // ---------------------------------------------------------------- chaining

  /** Block i of a string, if there is one. */
  function Piece(s: seq<byte>, i: int): (p: seq<byte>)
    ensures |p| == 16
  {
    if 0 <= 16 * i && 16 * i + 16 <= |s| then s[16 * i..16 * i + 16] else ZeroBlock()
  }

  /** The block before block i: the register for the first. */
  function Before(f: seq<byte>, c: seq<byte>, i: int): (r: seq<byte>)
    requires |f| == 16
    ensures |r| == 16
  {
    if i == 0 then f else Piece(c, i - 1)
  }

  lemma Pieces(first: seq<byte>, rest: seq<byte>, i: nat)
    requires |first| == 16 && 16 * i + 16 <= |first + rest|
    ensures Piece(first + rest, i) == if i == 0 then first else Piece(rest, i - 1)
  {
    var s, o := first + rest, 16 * i;
    if i == 0 {
      assert s[o..o + 16] == first;
    } else {
      assert s[o..o + 16] == rest[o - 16..o];
    }
  }

  lemma BeforeRest(f: seq<byte>, first: seq<byte>, rest: seq<byte>, i: nat)
    requires |f| == |first| == 16 && 1 <= i && 16 * i <= |first + rest|
    ensures Before(f, first + rest, i) == Before(first, rest, i - 1)
  {
    Pieces(first, rest, i - 1);
    hide Piece;
  }

  lemma StepsAre(k: Keys, f: seq<byte>, p: seq<byte>)
    requires k.Sized() && |f| == 16 && |p| == 16
    ensures var r := EncryptStep(k, CBC, f, p);
            r.0 == r.1 == Encipher(k.t, k.fkey, k.nr, XorBytes(p, f))
    ensures var r := DecryptStep(k, CBC, f, p);
            r.0 == p && r.1 == XorBytes(Decipher(k.t, k.rkey, k.nr, p), f)
  {
    hide Encipher, Decipher, XorBytes;
  }

  lemma {:induction false} CbcLength(k: Keys, f: seq<byte>, s: seq<byte>, q: nat)
    requires k.Sized() && |f| == 16 && |s| == 16 * q
    ensures |CbcEncrypt(k, f, s)| == |CbcDecrypt(k, f, s)| == |s|
    decreases q
  {
    if q == 0 {
      CbcNothing(k, f);
      assert s == [];
    } else {
      var p, rest := s[..16], s[16..];
      assert s == p + rest && Width(CBC) == 16;
      hide *;
      StepsAre(k, f, p);
      CbcEncryptNext(k, f, p, rest);
      CbcDecryptNext(k, f, p, rest);
      CbcLength(k, EncryptStep(k, CBC, f, p).0, rest, q - 1);
      CbcLength(k, p, rest, q - 1);
    }
  }

  /** The block cipher on a block added to another. */
  function Chained(k: Keys, p: seq<byte>, before: seq<byte>): (c: seq<byte>)
    requires k.Sized() && |p| == |before| == 16
    ensures |c| == 16
  {
    Encipher(k.t, k.fkey, k.nr, XorBytes(p, before))
  }

  function Unchained(k: Keys, c: seq<byte>, before: seq<byte>): (p: seq<byte>)
    requires k.Sized() && |c| == |before| == 16
    ensures |p| == 16
  {
    XorBytes(Decipher(k.t, k.rkey, k.nr, c), before)
  }

  lemma CbcFirst(k: Keys, f: seq<byte>, p: seq<byte>, rest: seq<byte>)
    requires k.Sized() && |f| == 16 && |p| == 16
    ensures var first := Chained(k, p, f);
            CbcEncrypt(k, f, p + rest) == first + CbcEncrypt(k, first, rest)
    ensures var first := Unchained(k, p, f);
            CbcDecrypt(k, f, p + rest) == first + CbcDecrypt(k, p, rest)
  {
    StepsAre(k, f, p);
    CbcEncryptNext(k, f, p, rest);
    CbcDecryptNext(k, f, p, rest);
    hide EncryptStep, DecryptStep, CbcEncrypt, CbcDecrypt, Encipher, Decipher, XorBytes;
  }

  lemma BeforeFirst(f: seq<byte>, c: seq<byte>)
    requires |f| == 16
    ensures Before(f, c, 0) == f
  {
  }

  lemma EncryptsFirst(k: Keys, f: seq<byte>, p: seq<byte>, rest: seq<byte>, first: seq<byte>, tail: seq<byte>,
      s: seq<byte>, c: seq<byte>)
    requires k.Sized() && |f| == |p| == |first| == 16 && s == p + rest && c == first + tail && first == Chained(k, p, f)
    ensures Piece(c, 0) == Chained(k, Piece(s, 0), Before(f, c, 0))
  {
    hide *;
    Pieces(p, rest, 0);
    Pieces(first, tail, 0);
    BeforeFirst(f, c);
  }

  lemma EncryptsLater(k: Keys, f: seq<byte>, p: seq<byte>, rest: seq<byte>, first: seq<byte>, tail: seq<byte>,
      s: seq<byte>, c: seq<byte>, i: nat)
    requires k.Sized() && |f| == |p| == |first| == 16 && s == p + rest && c == first + tail
    requires |rest| == |tail| && 1 <= i && 16 * (i - 1) + 16 <= |rest|
    requires Piece(tail, i - 1) == Chained(k, Piece(rest, i - 1), Before(first, tail, i - 1))
    ensures Piece(c, i) == Chained(k, Piece(s, i), Before(f, c, i))
  {
    hide *;
    Pieces(p, rest, i);
    Pieces(first, tail, i);
    BeforeRest(f, first, tail, i);
  }

  lemma {:induction false} EncryptsAll(k: Keys, f: seq<byte>, s: seq<byte>, c: seq<byte>, q: nat, i: nat)
    requires k.Sized() && |f| == 16 && |s| == 16 * q && i < q && c == CbcEncrypt(k, f, s)
    ensures |c| == |s| && Piece(c, i) == Chained(k, Piece(s, i), Before(f, c, i))
    decreases q, 1
  {
    var p, rest := s[..16], s[16..];
    assert s == p + rest;
    hide *;
    CbcFirst(k, f, p, rest);
    EncryptsFrom(k, f, p, rest, s, c, q - 1, i);
  }

  lemma {:induction false} EncryptsFrom(k: Keys, f: seq<byte>, p: seq<byte>, rest: seq<byte>, s: seq<byte>,
      c: seq<byte>, q: nat, i: nat)
    requires k.Sized() && |f| == |p| == 16 && |rest| == 16 * q && i <= q && s == p + rest
    requires c == Chained(k, p, f) + CbcEncrypt(k, Chained(k, p, f), rest)
    ensures |c| == |s| && Piece(c, i) == Chained(k, Piece(s, i), Before(f, c, i))
    decreases q, 2
  {
    hide *;
    var first := Chained(k, p, f);
    var tail := CbcEncrypt(k, first, rest);
    CbcLength(k, first, rest, q);
    if i == 0 {
      EncryptsFirst(k, f, p, rest, first, tail, s, c);
    } else {
      EncryptsAll(k, first, rest, tail, q, i - 1);
      EncryptsLater(k, f, p, rest, first, tail, s, c, i);
    }
  }

  lemma DecryptsFirst(k: Keys, f: seq<byte>, p: seq<byte>, rest: seq<byte>, first: seq<byte>, tail: seq<byte>,
      s: seq<byte>, c: seq<byte>)
    requires k.Sized() && |f| == |p| == |first| == 16 && s == p + rest && c == first + tail
      && first == Unchained(k, p, f)
    ensures Piece(c, 0) == Unchained(k, Piece(s, 0), Before(f, s, 0))
  {
    hide *;
    Pieces(p, rest, 0);
    Pieces(first, tail, 0);
    BeforeFirst(f, s);
  }

  lemma DecryptsLater(k: Keys, f: seq<byte>, p: seq<byte>, rest: seq<byte>, first: seq<byte>, tail: seq<byte>,
      s: seq<byte>, c: seq<byte>, i: nat)
    requires k.Sized() && |f| == |p| == |first| == 16 && s == p + rest && c == first + tail
    requires |rest| == |tail| && 1 <= i && 16 * (i - 1) + 16 <= |rest|
    requires Piece(tail, i - 1) == Unchained(k, Piece(rest, i - 1), Before(p, rest, i - 1))
    ensures Piece(c, i) == Unchained(k, Piece(s, i), Before(f, s, i))
  {
    hide *;
    Pieces(p, rest, i);
    Pieces(first, tail, i);
    BeforeRest(f, p, rest, i);
  }

  lemma {:induction false} DecryptsAll(k: Keys, f: seq<byte>, s: seq<byte>, c: seq<byte>, q: nat, i: nat)
    requires k.Sized() && |f| == 16 && |s| == 16 * q && i < q && c == CbcDecrypt(k, f, s)
    ensures |c| == |s| && Piece(c, i) == Unchained(k, Piece(s, i), Before(f, s, i))
    decreases q, 1
  {
    var p, rest := s[..16], s[16..];
    assert s == p + rest;
    hide *;
    CbcFirst(k, f, p, rest);
    DecryptsFrom(k, f, p, rest, s, c, q - 1, i);
  }

  lemma {:induction false} DecryptsFrom(k: Keys, f: seq<byte>, p: seq<byte>, rest: seq<byte>, s: seq<byte>,
      c: seq<byte>, q: nat, i: nat)
    requires k.Sized() && |f| == |p| == 16 && |rest| == 16 * q && i <= q && s == p + rest
    requires c == Unchained(k, p, f) + CbcDecrypt(k, p, rest)
    ensures |c| == |s| && Piece(c, i) == Unchained(k, Piece(s, i), Before(f, s, i))
    decreases q, 2
  {
    hide *;
    var first := Unchained(k, p, f);
    var tail := CbcDecrypt(k, p, rest);
    CbcLength(k, p, rest, q);
    if i == 0 {
      DecryptsFirst(k, f, p, rest, first, tail, s, c);
    } else {
      DecryptsAll(k, p, rest, tail, q, i - 1);
      DecryptsLater(k, f, p, rest, first, tail, s, c, i);
    }
  }

  // ---------------------------------------------------------------- messages

  lemma ZeroXor(p: seq<byte>)
    requires |p| == 16
    ensures XorBytes(p, ZeroBlock()) == p
  {
    forall j | 0 <= j < 16 ensures XorBytes(p, ZeroBlock())[j] == p[j] {
      ByteCancel(p[j], 0);
    }
  }

  lemma Encoding(k: Keys, m: seq<byte>)
    requires k.Sized() && |m| > 0
    ensures Encode(k, m) == CbcEncrypt(k, ZeroBlock(), Pad(m)) && |Pad(m)| == 16 * (|Pad(m)| / 16)
  {
    hide CbcEncrypt, Pad, ZeroBlock;
  }

  lemma FirstPiece(k: Keys, p: seq<byte>)
    requires k.Sized() && |p| == 16
    ensures Chained(k, p, ZeroBlock()) == Encipher(k.t, k.fkey, k.nr, p)
  {
    ZeroXor(p);
    hide Encipher, XorBytes, ZeroBlock;
  }

  lemma PieceIs(s: seq<byte>, i: nat)
    requires 16 * i + 16 <= |s|
    ensures Piece(s, i) == s[16 * i..16 * i + 16]
  {
  }

  lemma PieceByte(s: seq<byte>, i: nat, j: nat, n: nat)
    requires n == 16 * i + j && 16 * i + 16 <= |s| && j < 16
    ensures Piece(s, i)[j] == s[n]
  {
  }

  /** The first block of a ciphertext is the first block of the padded message, enciphered. */
  lemma EncodedFirst(k: Keys, m: seq<byte>)
    requires k.Sized() && |m| > 0
    ensures |Encode(k, m)| == |Pad(m)| >= 16
    ensures Encode(k, m)[..16] == Encipher(k.t, k.fkey, k.nr, Pad(m)[..16])
  {
    var s, c := Pad(m), Encode(k, m);
    assert |s| >= 16;
    Encoding(k, m);
    BeforeFirst(ZeroBlock(), c);
    hide *;
    EncryptsAll(k, ZeroBlock(), s, c, |s| / 16, 0);
    PieceIs(c, 0);
    PieceIs(s, 0);
    FirstPiece(k, Piece(s, 0));
  }

  /** Each later one is the block of the padded message added to the block of ciphertext before it, enciphered. */
  lemma EncodedLater(k: Keys, m: seq<byte>, i: nat)
    requires k.Sized() && |m| > 0 && i >= 1 && 16 * i + 16 <= |Pad(m)|
    ensures |Encode(k, m)| == |Pad(m)|
    ensures Encode(k, m)[16 * i..16 * i + 16]
         == Encipher(k.t, k.fkey, k.nr,
                     seq(16, j requires 0 <= j < 16 => X(Pad(m)[16 * i + j], Encode(k, m)[16 * i - 16 + j])))
  {
    var s, c := Pad(m), Encode(k, m);
    Encoding(k, m);
    BeforeLater(ZeroBlock(), c, i);
    hide *;
    EncryptsAll(k, ZeroBlock(), s, c, |s| / 16, i);
    PieceIs(c, i);
    LaterPiece(k, s, c, i);
  }

  lemma BeforeLater(f: seq<byte>, c: seq<byte>, i: nat)
    requires |f| == 16 && i >= 1
    ensures Before(f, c, i) == Piece(c, i - 1)
  {
  }

  lemma LaterPiece(k: Keys, s: seq<byte>, c: seq<byte>, i: nat)
    requires k.Sized() && i >= 1 && 16 * i + 16 <= |s| == |c|
    ensures Chained(k, Piece(s, i), Piece(c, i - 1))
         == Encipher(k.t, k.fkey, k.nr, seq(16, j requires 0 <= j < 16 => X(s[16 * i + j], c[16 * i - 16 + j])))
  {
    PieceIs(s, i);
    PieceIs(c, i - 1);
    hide Encipher, X, Piece;
    assert XorBytes(Piece(s, i), Piece(c, i - 1))
        == seq(16, j requires 0 <= j < 16 => X(s[16 * i + j], c[16 * i - 16 + j]));
  }

  lemma AcceptedBytes(k: Keys, c: seq<byte>)
    requires k.Sized() && Decode(k, c).0
    ensures |c| == 16 * (|c| / 16) && Decode(k, c).1 <= CbcDecrypt(k, ZeroBlock(), c)
  {
    hide CbcDecrypt, ZeroBlock;
    if |c| == 0 {
      assert [] <= CbcDecrypt(k, ZeroBlock(), c);
    }
  }

  lemma RefusedBytes(k: Keys, c: seq<byte>)
    requires k.Sized() && !Decode(k, c).0
    ensures Earlier(|c|) == 16 * (Earlier(|c|) / 16) && Earlier(|c|) <= |c|
    ensures Decode(k, c).1 == CbcDecrypt(k, ZeroBlock(), c[..Earlier(|c|)])
  {
    hide CbcDecrypt, ZeroBlock, Padded;
  }

  /** What is delivered is the beginning of the first q blocks, decrypted. */
  lemma Delivered(k: Keys, c: seq<byte>) returns (q: nat)
    requires k.Sized()
    ensures 16 * q <= |c| && Decode(k, c).1 <= CbcDecrypt(k, ZeroBlock(), c[..16 * q])
  {
    hide CbcDecrypt, ZeroBlock, Decode;
    if Decode(k, c).0 {
      AcceptedBytes(k, c);
      q := |c| / 16;
      assert c[..16 * q] == c;
    } else {
      RefusedBytes(k, c);
      q := Earlier(|c|) / 16;
    }
  }

  lemma DeliveredByte(k: Keys, c: seq<byte>, n: nat) returns (q: nat, b: seq<byte>, s: seq<byte>)
    requires k.Sized() && n < |Decode(k, c).1|
    ensures n < 16 * q <= |c| && b == c[..16 * q] && s == CbcDecrypt(k, ZeroBlock(), b) && |s| == 16 * q
    ensures Decode(k, c).1[n] == s[n]
  {
    q := Delivered(k, c);
    b := c[..16 * q];
    CbcLength(k, ZeroBlock(), b, q);
    s := CbcDecrypt(k, ZeroBlock(), b);
    hide *;
  }

  lemma CutPiece(c: seq<byte>, b: seq<byte>, q: nat, i: nat)
    requires 16 * q <= |c| && b == c[..16 * q] && i < q
    ensures 16 * i + 16 <= |c| && Piece(b, i) == c[16 * i..16 * i + 16]
  {
    PieceIs(b, i);
  }

  lemma CutByte(c: seq<byte>, b: seq<byte>, q: nat, n: nat)
    requires 16 * q <= |c| && b == c[..16 * q] && n < 16 * q
    ensures b[n] == c[n]
  {
  }

  lemma DecipheredFirst(k: Keys, b: seq<byte>, s: seq<byte>, q: nat, j: nat)
    requires k.Sized() && |b| == 16 * q && q >= 1 && j < 16 && s == CbcDecrypt(k, ZeroBlock(), b)
    ensures |s| == |b| && s[j] == Decipher(k.t, k.rkey, k.nr, Piece(b, 0))[j]
  {
    var z := ZeroBlock();
    assert z[j] == 0;
    hide *;
    DecryptsAll(k, z, b, s, q, 0);
    UnchainedByte(k, Piece(b, 0), z, j);
    PieceByte(s, 0, j, j);
    BeforeFirst(z, b);
    ByteCancel(Decipher(k.t, k.rkey, k.nr, Piece(b, 0))[j], 0);
  }

  lemma DecipheredLater(k: Keys, b: seq<byte>, s: seq<byte>, q: nat, i: nat, j: nat, n: nat)
    requires k.Sized() && |b| == 16 * q && 1 <= i < q && j < 16 && n == 16 * i + j
    requires s == CbcDecrypt(k, ZeroBlock(), b)
    ensures |s| == |b| && s[n] == X(Decipher(k.t, k.rkey, k.nr, Piece(b, i))[j], b[n - 16])
  {
    hide *;
    DecryptsAll(k, ZeroBlock(), b, s, q, i);
    BeforeLater(ZeroBlock(), b, i);
    UnchainedByte(k, Piece(b, i), Piece(b, i - 1), j);
    PieceByte(s, i, j, n);
    PieceByte(b, i - 1, j, n - 16);
  }

  lemma UnchainedByte(k: Keys, p: seq<byte>, before: seq<byte>, j: nat)
    requires k.Sized() && |p| == |before| == 16 && j < 16
    ensures Unchained(k, p, before)[j] == X(Decipher(k.t, k.rkey, k.nr, p)[j], before[j])
  {
    hide Decipher, X;
  }

  /** Every byte delivered, on acceptance and on refusal: those of the first block are that block of the ciphertext,
      deciphered. */
  lemma DecodedFirst(k: Keys, c: seq<byte>, j: nat)
    requires k.Sized() && j < 16 && j < |Decode(k, c).1|
    ensures 16 <= |c| && Decode(k, c).1[j] == Decipher(k.t, k.rkey, k.nr, c[..16])[j]
  {
    var q, b, s := DeliveredByte(k, c, j);
    hide *;
    DecipheredFirst(k, b, s, q, j);
    CutPiece(c, b, q, 0);
  }

  lemma DecodedAt(k: Keys, c: seq<byte>, i: nat, j: nat, n: nat)
    requires k.Sized() && 1 <= i && j < 16 && n == 16 * i + j && n < |Decode(k, c).1|
    ensures 16 * i + 16 <= |c|
    ensures Decode(k, c).1[n] == X(Decipher(k.t, k.rkey, k.nr, c[16 * i..16 * i + 16])[j], c[n - 16])
  {
    var q, b, s := DeliveredByte(k, c, n);
    hide *;
    assert i < q;
    CutPiece(c, b, q, i);
    CutByte(c, b, q, n - 16);
    DecipheredLater(k, b, s, q, i, j, n);
  }

  /** Those of a later block are that block of the ciphertext, deciphered, added to the one before it. */
  lemma DecodedLater(k: Keys, c: seq<byte>, n: nat)
    requires k.Sized() && 16 <= n < |Decode(k, c).1|
    ensures var o := n - n % 16;
            && o + 16 <= |c|
            && Decode(k, c).1[n] == X(Decipher(k.t, k.rkey, k.nr, c[o..o + 16])[n % 16], c[n - 16])
  {
    hide *;
    var i, j := n / 16, n % 16;
    assert n == 16 * i + j;
    DecodedAt(k, c, i, j, n);
  }

  /** And how many there are: on acceptance what is delivered is the message whose padding was found, on refusal all
      blocks before the one with the last byte. */
  lemma DecodedLength(k: Keys, c: seq<byte>)
    requires k.Sized()
    ensures Decode(k, c).0 ==> (|c| == 0 && Decode(k, c).1 == []) || |Pad(Decode(k, c).1)| == |c|
    ensures !Decode(k, c).0 ==>
      var n := |Decode(k, c).1|; n % 16 == 0 && n < |c| <= n + 16
  {
    hide Padded, CbcDecrypt, ZeroBlock, Pad, Unpad;
    if Decode(k, c).0 {
      if |c| > 0 {
        CbcLength(k, ZeroBlock(), c, |c| / 16);
        Repad(CbcDecrypt(k, ZeroBlock(), c));
      }
    } else {
      RefusedBytes(k, c);
      CbcLength(k, ZeroBlock(), c[..Earlier(|c|)], Earlier(|c|) / 16);
    }
  }
}
