/** CBC over octet strings with a zero register and padding: AES_CBC_IV0_ENCRYPT and
    AES_CBC_IV0_DECRYPT. */
module AesCbc {
  import opened AesWord
  import opened AesCipher
  import opened Aes
  import opened AesModes

  // ---------------------------------------------------------------- as functions

  function ZeroBlock(): (z: seq<byte>)
    ensures |z| == 16 && forall i :: 0 <= i < 16 ==> z[i] == 0
  {
    seq(16, _ => 0)
  }

  /** Encryption of whole blocks, from register f on. */
  function CbcEncrypt(k: Keys, f: seq<byte>, s: seq<byte>): seq<byte>
    requires k.Sized() && |f| == 16
    decreases |s|
  {
    if |s| < 16 then []
    else var r := EncryptStep(k, CBC, f, s[..16]); r.1 + CbcEncrypt(k, r.0, s[16..])
  }

  function CbcDecrypt(k: Keys, f: seq<byte>, c: seq<byte>): seq<byte>
    requires k.Sized() && |f| == 16
    decreases |c|
  {
    if |c| < 16 then []
    else var r := DecryptStep(k, CBC, f, c[..16]); r.1 + CbcDecrypt(k, r.0, c[16..])
  }

  lemma CbcEncryptNext(k: Keys, f: seq<byte>, p: seq<byte>, rest: seq<byte>)
    requires k.Sized() && |f| == 16 && |p| == 16
    ensures var r := EncryptStep(k, CBC, f, p); CbcEncrypt(k, f, p + rest) == r.1 + CbcEncrypt(k, r.0, rest)
  {
    assert (p + rest)[..16] == p && (p + rest)[16..] == rest;
    hide EncryptStep;
  }

  lemma CbcDecryptNext(k: Keys, f: seq<byte>, c: seq<byte>, rest: seq<byte>)
    requires k.Sized() && |f| == 16 && |c| == 16
    ensures var r := DecryptStep(k, CBC, f, c); CbcDecrypt(k, f, c + rest) == r.1 + CbcDecrypt(k, r.0, rest)
  {
    assert (c + rest)[..16] == c && (c + rest)[16..] == rest;
    hide DecryptStep;
  }

  lemma CbcNothing(k: Keys, f: seq<byte>)
    requires k.Sized() && |f| == 16
    ensures CbcEncrypt(k, f, []) == [] && CbcDecrypt(k, f, []) == []
  {
  }

  /** Decrypting q encrypted blocks gives them back. */
  lemma {:induction false} CbcRoundTrip(k: Keys, f: seq<byte>, s: seq<byte>, q: nat)
    requires k.Valid() && |f| == 16 && |s| == 16 * q
    ensures CbcDecrypt(k, f, CbcEncrypt(k, f, s)) == s && |CbcEncrypt(k, f, s)| == |s|
    decreases q
  {
    assert k.Sized() && Width(CBC) == 16;
    hide *;
    if q == 0 {
      CbcNothing(k, f);
      assert s == [];
    } else {
      var p, rest := s[..16], s[16..];
      assert s == p + rest;
      var r := EncryptStep(k, CBC, f, p);
      CbcRoundTrip(k, r.0, rest, q - 1);
      StepRoundTrip(k, CBC, f, p);
      CbcEncryptNext(k, f, p, rest);
      CbcDecryptNext(k, f, r.1, CbcEncrypt(k, r.0, rest));
    }
  }

  /** How many bytes of padding a message gets: never none. */
  function PadLength(n: nat): (p: nat)
    ensures 1 <= p <= 16 && (n + p) % 16 == 0
  {
    16 - n % 16
  }

  /** Padding as in section 6.3 of RFC 5652. */
  function Pad(m: seq<byte>): (s: seq<byte>)
    ensures |s| == |m| + PadLength(|m|) && |s| % 16 == 0
  {
    m + Padding(PadLength(|m|))
  }

  /** n bytes of value n */
  function Padding(n: nat): (p: seq<byte>)
    requires n <= 16
    ensures |p| == n
  {
    seq(n, _ => n as byte)
  }

  /** The message ends with n bytes of value n, for some n from 1 to 16. */
  predicate Padded(s: seq<byte>) {
    |s| >= 16 && var n := s[|s| - 1] as int; 1 <= n <= 16 && forall i :: |s| - n <= i < |s| ==> s[i] == s[|s| - 1]
  }

  function Unpad(s: seq<byte>): seq<byte>
    requires Padded(s)
  {
    s[..|s| - s[|s| - 1] as int]
  }

  lemma UnpadPad(m: seq<byte>)
    ensures Padded(Pad(m)) && Unpad(Pad(m)) == m
  {
    var s, p := Pad(m), PadLength(|m|);
    assert s[|s| - 1] == p as byte;
    assert (p as byte) as int == p;
    assert forall i :: |m| <= i < |s| ==> s[i] == p as byte;
    assert s[..|m|] == m;
  }

  /** The ciphertext of a message; an empty message is left empty. */
  function Encode(k: Keys, m: seq<byte>): seq<byte>
    requires k.Sized()
  {
    if |m| == 0 then [] else CbcEncrypt(k, ZeroBlock(), Pad(m))
  }

  /** Whole blocks before the one that holds the last byte. */
  function Earlier(n: nat): (e: nat)
    ensures e % 16 == 0 && (n > 0 ==> e < n <= e + 16)
  {
    if n == 0 then 0 else n - 1 - (n - 1) % 16
  }

  /** Acceptance, and the bytes delivered either way. */
  function Decode(k: Keys, c: seq<byte>): (bool, seq<byte>)
    requires k.Sized()
  {
    if |c| == 0 then (true, [])
    else if |c| % 16 == 0 && Padded(CbcDecrypt(k, ZeroBlock(), c)) then (true, Unpad(CbcDecrypt(k, ZeroBlock(), c)))
    else (false, CbcDecrypt(k, ZeroBlock(), c[..Earlier(|c|)]))
  }

  /** Decrypting the encryption of any message accepts it and returns that message. */
  lemma DecodeEncode(k: Keys, m: seq<byte>)
    requires k.Valid()
    ensures Decode(k, Encode(k, m)) == (true, m)
  {
    if |m| > 0 {
      hide CbcEncrypt, CbcDecrypt;
      CbcRoundTrip(k, ZeroBlock(), Pad(m), |Pad(m)| / 16);
      UnpadPad(m);
    }
  }

  /** Under every key, with tables that have the facts: what AES_CBC_IV0_ENCRYPT makes of a message,
      AES_CBC_IV0_DECRYPT accepts and gives back. */
  lemma MessageRoundTrip(t: Tables, key: seq<byte>, nk: nat, m: seq<byte>)
    requires t.Facts() && KeyWords(nk) && 4 * nk <= |key|
    ensures Decode(KeysFor(t, key, nk), Encode(KeysFor(t, key, nk), m)) == (true, m)
  {
    KeysForValid(t, key, nk);
    hide KeysFor, Decode, Encode, Tables.Facts;
    DecodeEncode(KeysFor(t, key, nk), m);
  }

  /** And so with the tables of the program. */
  lemma ProgramRoundTrip(key: seq<byte>, nk: nat, m: seq<byte>)
    requires KeyWords(nk) && 4 * nk <= |key|
    ensures var k := KeysFor(AesTables.Constants(), key, nk); Decode(k, Encode(k, m)) == (true, m)
  {
    AesTables.ConstantsFacts();
    hide *;
    MessageRoundTrip(AesTables.Constants(), key, nk, m);
  }

  // ---------------------------------------------------------------- octet strings

  /** octet: a buffer of some capacity, of which the first len bytes are in use. */
  class Octet {
    var len: nat
    const val: array<byte>

    ghost predicate Valid()
      reads this
    {
      len <= val.Length
    }

    ghost function Contents(): seq<byte>
      requires Valid()
      reads this, val
    {
      val[..len]
    }

    constructor (max: nat)
      ensures Valid() && fresh(val) && val.Length == max && len == 0
    {
      val := new byte[max];
      len := 0;
    }
  }

  /** What a string of the given capacity keeps of a longer one. */
  function Truncate(s: seq<byte>, max: nat): (r: seq<byte>)
    ensures r <= s && |r| == if |s| <= max then |s| else max
  {
    if |s| <= max then s else s[..max]
  }

  /** for (i = 0; i < n; i++) if (opt < max) val[opt++] = buff[i] */
  method Put(c: Octet, opt: nat, buff: array<byte>, n: nat, ghost out: seq<byte>) returns (next: nat)
    requires c.val != buff && n <= buff.Length && Written(c, opt, out)
    modifies c.val
    ensures Written(c, next, out + old(buff[..n]))
  {
    next := opt;
    var i := 0;
    while i < n
      invariant 0 <= i <= n && next <= c.val.Length
      invariant c.val[..next] == Truncate(out + buff[..i], c.val.Length)
    {
      assert buff[..i + 1] == buff[..i] + [buff[i]];
      ghost var before := c.val[..next];
      if next < c.val.Length {
        c.val[next] := buff[i];
        next := next + 1;
        assert c.val[..next] == before + [buff[i]];
      }
      TruncateMore(out, buff[..i], buff[i], c.val.Length);
      i := i + 1;
    }
  }

  lemma TruncateMore(out: seq<byte>, s: seq<byte>, b: byte, max: nat)
    ensures Truncate(out + (s + [b]), max)
         == if |out + s| < max then Truncate(out + s, max) + [b] else Truncate(out + s, max)
  {
    assert out + (s + [b]) == (out + s) + [b];
  }

  /** for (i = 0; i < 16; i++) if (ipt < m->len) buff[i] = m->val[ipt++]; else { fin = 1; break; } */
  method Fill(buff: array<byte>, m: Octet, ipt: nat) returns (i: nat, next: nat, fin: bool)
    requires buff.Length == 16 && buff != m.val && ipt <= m.len <= m.val.Length
    modifies buff
    ensures next == ipt + i <= m.len && i <= 16 && buff[..i] == m.val[ipt..next]
    ensures fin <==> i < 16
    ensures fin ==> next == m.len
  {
    i, next, fin := 0, ipt, false;
    while i < 16
      invariant 0 <= i <= 16 && next == ipt + i <= m.len && !fin
      invariant forall l :: 0 <= l < i ==> buff[l] == m.val[ipt + l]
    {
      if next < m.len {
        buff[i] := m.val[next];
        next := next + 1;
      } else {
        fin := true;
        break;
      }
      i := i + 1;
    }
  }

  /** for (j = i; j < 16; j++) buff[j] = padlen */
  method FillPadding(buff: array<byte>, i: nat)
    requires buff.Length == 16 && i < 16
    modifies buff
    ensures buff[..] == old(buff[..i]) + Padding(16 - i)
  {
    var padlen := 16 - i;
    var j := i;
    while j < 16
      invariant i <= j <= 16
      invariant forall l :: 0 <= l < i ==> buff[l] == old(buff[l])
      invariant forall l :: i <= l < j ==> buff[l] == padlen as byte
    {
      buff[j] := padlen as byte;
      j := j + 1;
    }
  }

  // ---------------------------------------------------------------- encryption

  /** A context in CBC mode with the schedules k. */
  ghost predicate InUse(t: Tables, a: Context, k: Keys)
    reads a, a.fkey, a.rkey
  {
    a.Shape() && a.nr >= 1 && 4 * a.nr + 4 <= 60 && t.Mixed() && a.mode == CBC && KeysOf(t, a) == k
  }

  /** The context and an array of the caller share no storage. */
  ghost predicate Apart(a: Context, s: array<byte>)
    reads a
  {
    var o: object := s;
    o != a.f && o != a.fkey && o != a.rkey
  }

  /** aes a; AES_init(&a, CBC, k->len, k->val, NULL) */
  method Start(t: Tables, k: Octet) returns (a: Context)
    requires k.Valid() && t.Mixed() && KeyWords(k.len / 4)
    ensures fresh(a) && fresh(a.fkey) && fresh(a.rkey) && fresh(a.f)
    ensures InUse(t, a, KeysFor(t, k.Contents(), k.len / 4)) && a.f[..] == ZeroBlock()
  {
    a := new Context();
    hide InUse, KeysFor, ZeroBlock, Tables.Mixed;
    InitCbc(t, a, k.len, k.val);
  }

  method InitCbc(t: Tables, a: Context, len: nat, val: array<byte>)
    requires a.Shape() && Apart(a, val) && t.Mixed() && KeyWords(len / 4) && len <= val.Length
    modifies a, a.f, a.fkey, a.rkey
    ensures InUse(t, a, KeysFor(t, val[..len], len / 4)) && a.f[..] == ZeroBlock()
  {
    CbcRegister();
    ghost var key := val[..];
    assert val[..len] == key[..len];
    hide CipherKey, KeysFor, KeysOf, InUse, Schedule, IsSchedule, ReversedKeys, Register, Tables.Mixed, ZeroBlock;
    var _ := a.Init(t, CBC, len, val, null);
    Started(t, a, key, len, len / 4);
  }

  lemma Started(t: Tables, a: Context, key: seq<byte>, len: nat, nk: nat)
    requires t.Mixed() && KeyWords(nk) && 4 * nk <= len <= |key| && a.Ready(t) && a.nr == 6 + nk && a.mode == CBC
    requires IsSchedule(t, key, nk, a.fkey[..])
    ensures InUse(t, a, KeysFor(t, key[..len], nk))
  {
    WordsSchedule(t, key, len, nk, a.fkey[..]);
    hide CipherKey, Tables.Mixed, Schedule, IsSchedule, ReversedKeys, KeysFor, KeysOf;
    Scheduled(t, key[..len], nk, a);
  }

  lemma CbcRegister()
    ensures Register(CBC, None) == ZeroBlock()
  {
  }

  lemma Scheduled(t: Tables, key: seq<byte>, nk: nat, a: Context)
    requires KeyWords(nk) && 4 * nk <= |key| && a.Shape() && a.nr == nk + 6
    requires Schedule(t, CipherKey(key, nk), a.fkey[..], 4 * nk + 28) && ReversedKeys(t, a.fkey[..], a.rkey[..], nk + 6)
    ensures KeysOf(t, a) == KeysFor(t, key, nk)
  {
    KeysInContext(t, key, nk, a.fkey[..], a.rkey[..]);
    hide CipherKey, Schedule, ReversedKeys, KeysFor;
    assert a.fkey[..][..4 * a.nr + 4] == a.fkey[..4 * a.nr + 4] && a.rkey[..][..4 * a.nr + 4] == a.rkey[..4 * a.nr + 4];
  }

  /** AES_encrypt(&a, buff), and the sixteen bytes to the output. */
  method EncryptBlockTo(t: Tables, a: Context, buff: array<byte>, c: Octet, opt: nat, ghost k: Keys,
      ghost out: seq<byte>) returns (next: nat)
    requires InUse(t, a, k) && k.Sized() && buff.Length == 16 && c.val != buff && Apart(a, buff) && Apart(a, c.val)
    requires Written(c, opt, out)
    modifies a.f, buff, c.val
    ensures InUse(t, a, k)
    ensures var r := EncryptStep(k, CBC, old(a.f[..]), old(buff[..]));
            a.f[..] == r.0 && Written(c, next, out + r.1)
  {
    hide EncryptStep, Truncate;
    var signed: bool := *;
    var _ := Encrypt(t, a, buff, signed);
    assert buff[..16] == buff[..];
    next := Put(c, opt, buff, 16, out);
  }

  lemma LengthTail(n: nat, ipt: nat, i: nat)
    requires ipt % 16 == 0 && i < 16 && ipt + i == n
    ensures n % 16 == i && PadLength(n) == 16 - i
  {
  }

  lemma PadTail(m: seq<byte>, ipt: nat, i: nat)
    requires ipt % 16 == 0 && i < 16 && ipt + i == |m|
    ensures ipt <= |Pad(m)| && Pad(m)[ipt..] == m[ipt..] + Padding(16 - i)
  {
    LengthTail(|m|, ipt, i);
  }

  /** AES_CBC_IV0_ENCRYPT, for a key of a length that AES_init accepts. */
  method CbcIv0Encrypt(t: Tables, k: Octet, m: Octet, c: Octet)
    requires t.Mixed() && k.Valid() && m.Valid() && c.Valid() && KeyWords(k.len / 4)
    requires c != m && c != k && c.val != m.val && c.val != k.val
    modifies c, c.val
    ensures c.Valid()
    ensures c.Contents() == Truncate(Encode(KeysFor(t, old(k.Contents()), k.len / 4), old(m.Contents())), c.val.Length)
  {
    c.len := 0;
    if m.len == 0 { return; }
    var a := Start(t, k);
    ghost var K, M := KeysFor(t, k.Contents(), k.len / 4), m.Contents();
    hide KeysFor, InUse, CbcEncrypt, Pad, ZeroBlock, Tables.Mixed, Keys.Sized;
    var buff := new byte[16];
    var opt := EncryptBlocks(t, a, buff, m, c, K);
    c.len := opt;
  }

  /** The first opt bytes of c are the output so far, as far as c has room for it. */
  ghost predicate Written(c: Octet, opt: nat, out: seq<byte>)
    reads c.val
  {
    opt <= c.val.Length && c.val[..opt] == Truncate(out, c.val.Length)
  }

  lemma NothingWritten(c: Octet)
    ensures Written(c, 0, [])
  {
  }

  /** The loop over full blocks, and the padded last block. */
  method EncryptBlocks(t: Tables, a: Context, buff: array<byte>, m: Octet, c: Octet, ghost k: Keys) returns (opt: nat)
    requires InUse(t, a, k) && k.Sized() && m.len <= m.val.Length && a.f.Length == 16 && a.f[..] == ZeroBlock()
    requires buff.Length == 16 && buff != m.val && c.val != buff && c.val != m.val && m.val != a.f && Apart(a, buff)
      && Apart(a, c.val)
    modifies a.f, buff, c.val
    ensures Written(c, opt, CbcEncrypt(k, ZeroBlock(), Pad(m.val[..m.len])))
  {
    ghost var M := m.val[..m.len];
    hide *;
    var i;
    ghost var out, base;
    opt, i, out, base := EncryptWhole(t, a, buff, m, c, k, M);
    opt := EncryptTail(t, a, buff, c, opt, i, k, M, out, base);
  }

  /** The padding, and the block that it completes. */
  method EncryptTail(t: Tables, a: Context, buff: array<byte>, c: Octet, opt: nat, i: nat, ghost k: Keys,
      ghost M: seq<byte>, ghost out: seq<byte>, ghost base: nat)
    returns (next: nat)
    requires InUse(t, a, k) && k.Sized() && Encrypting(k, M, a.f[..], out, base) && Written(c, opt, out)
    requires buff.Length == 16 && c.val != buff && Apart(a, buff) && Apart(a, c.val)
    requires base <= |M| && i < 16 && base + i == |M| && buff[..i] == M[base..]
    modifies a.f, buff, c.val
    ensures Written(c, next, CbcEncrypt(k, ZeroBlock(), Pad(M)))
  {
    hide Encrypting, InUse, Written, CbcEncrypt, EncryptStep, Pad, Padding, ZeroBlock, Keys.Sized;
    FillPadding(buff, i);
    next := EncryptLast(t, a, buff, c, opt, k, M, out, base);
  }

  /** The full blocks; what is left is in buff. */
  method EncryptWhole(t: Tables, a: Context, buff: array<byte>, m: Octet, c: Octet, ghost k: Keys, ghost M: seq<byte>)
    returns (opt: nat, i: nat, ghost out: seq<byte>, ghost base: nat)
    requires InUse(t, a, k) && k.Sized() && m.len <= m.val.Length && a.f.Length == 16 && a.f[..] == ZeroBlock()
      && m.val[..m.len] == M
    requires buff.Length == 16 && buff != m.val && c.val != buff && c.val != m.val && m.val != a.f && Apart(a, buff)
      && Apart(a, c.val)
    modifies a.f, buff, c.val
    ensures InUse(t, a, k) && Encrypting(k, M, a.f[..], out, base) && Written(c, opt, out) && m.val[..m.len] == M
    ensures base <= |M| && i < 16 && base + i == |M| && buff[..i] == M[base..]
  {
    assert |ZeroBlock()| == 16;
    hide Encrypting, InUse, Written, CbcEncrypt, EncryptStep, Pad, Padding, ZeroBlock, Keys.Sized;
    EncryptingStart(k, M);
    NothingWritten(c);
    out, base, opt := [], 0, 0;
    var ipt, fin := 0, false;
    i := 0;
    while !fin
      invariant 0 <= base <= ipt <= m.len && 0 <= i <= 16 && m.val[..m.len] == M
      invariant InUse(t, a, k) && Encrypting(k, M, a.f[..], out, base) && Written(c, opt, out)
      invariant if fin then i < 16 && ipt == m.len && base + i == ipt && buff[..i] == M[base..] else base == ipt
      decreases m.len - ipt, if fin then 0 else 1
      modifies a.f, buff, c.val
    {
      i, ipt, fin, opt, out, base := EncryptNext(t, a, buff, m, c, ipt, opt, k, M, out, base);
    }
  }

  /** The body of the loop: fill the buffer, and encrypt it when it is full. */
  method EncryptNext(t: Tables, a: Context, buff: array<byte>, m: Octet, c: Octet, ipt: nat, opt: nat, ghost k: Keys,
      ghost M: seq<byte>, ghost out: seq<byte>, ghost base: nat)
    returns (i: nat, next: nat, fin: bool, put: nat, ghost more: seq<byte>, ghost start: nat)
    requires InUse(t, a, k) && k.Sized() && Encrypting(k, M, a.f[..], out, base) && Written(c, opt, out)
    requires buff.Length == 16 && buff != m.val && c.val != buff && c.val != m.val && m.val != a.f && Apart(a, buff)
      && Apart(a, c.val)
    requires base == ipt <= m.len <= m.val.Length && m.val[..m.len] == M
    modifies a.f, buff, c.val
    ensures InUse(t, a, k) && Encrypting(k, M, a.f[..], more, start) && Written(c, put, more)
    ensures m.val[..m.len] == M && ipt <= next <= m.len && i <= 16 && (!fin ==> next == ipt + 16)
    ensures if fin then i < 16 && next == m.len && start + i == next && buff[..i] == M[start..] else start == next
  {
    hide Encrypting, InUse, Written, CbcEncrypt, EncryptStep, Keys.Sized;
    more, start, put := out, base, opt;
    i, next, fin := Fill(buff, m, ipt);
    PrefixSlice(m.val[..], m.len, base, next);
    if !fin {
      put, more := EncryptFull(t, a, buff, c, opt, k, M, out, base);
      start := next;
    }
  }

  lemma PrefixSlice(s: seq<byte>, n: nat, i: nat, j: nat)
    requires i <= j <= n <= |s|
    ensures s[..n][i..j] == s[i..j]
  {
  }

  method EncryptFull(t: Tables, a: Context, buff: array<byte>, c: Octet, opt: nat, ghost k: Keys, ghost M: seq<byte>,
      ghost out: seq<byte>, ghost base: nat)
    returns (next: nat, ghost more: seq<byte>)
    requires InUse(t, a, k) && k.Sized() && Encrypting(k, M, a.f[..], out, base) && Written(c, opt, out)
    requires buff.Length == 16 && c.val != buff && Apart(a, buff) && Apart(a, c.val)
    requires base + 16 <= |M| && buff[..16] == M[base..base + 16]
    modifies a.f, buff, c.val
    ensures InUse(t, a, k) && Encrypting(k, M, a.f[..], more, base + 16) && Written(c, next, more)
  {
    assert buff[..16] == buff[..];
    assert a.f.Length == 16;
    hide Encrypting, InUse, Written, CbcEncrypt, EncryptStep, Keys.Sized;
    EncryptingNext(k, M, a.f[..], out, base);
    more := out + EncryptStep(k, CBC, a.f[..], buff[..]).1;
    next := EncryptBlockTo(t, a, buff, c, opt, k, out);
  }

  method EncryptLast(t: Tables, a: Context, buff: array<byte>, c: Octet, opt: nat, ghost k: Keys, ghost M: seq<byte>,
      ghost out: seq<byte>, ghost base: nat)
    returns (next: nat)
    requires InUse(t, a, k) && k.Sized() && Encrypting(k, M, a.f[..], out, base) && Written(c, opt, out)
    requires buff.Length == 16 && c.val != buff && Apart(a, buff) && Apart(a, c.val)
    requires base <= |M| < base + 16 && buff[..] == M[base..] + Padding(16 - (|M| - base))
    modifies a.f, buff, c.val
    ensures Written(c, next, CbcEncrypt(k, ZeroBlock(), Pad(M)))
  {
    assert a.f.Length == 16;
    hide Encrypting, InUse, Written, CbcEncrypt, EncryptStep, Keys.Sized, Pad, Padding, ZeroBlock;
    EncryptingEnd(k, M, a.f[..], out, base, buff[..]);
    next := EncryptBlockTo(t, a, buff, c, opt, k, out);
  }

  /** The output so far and what the rest of the padded message will still give make up the whole. */
  ghost predicate Encrypting(k: Keys, m: seq<byte>, f: seq<byte>, out: seq<byte>, base: nat)
    requires k.Sized()
  {
    && |f| == 16 && base % 16 == 0 && base <= |m|
    && CbcEncrypt(k, ZeroBlock(), Pad(m)) == out + CbcEncrypt(k, f, Pad(m)[base..])
  }

  lemma EncryptingStart(k: Keys, m: seq<byte>)
    requires k.Sized()
    ensures Encrypting(k, m, ZeroBlock(), [], 0)
  {
    assert Pad(m)[0..] == Pad(m);
    hide CbcEncrypt;
  }

  lemma EncryptingNext(k: Keys, m: seq<byte>, f: seq<byte>, out: seq<byte>, base: nat)
    requires k.Sized() && Encrypting(k, m, f, out, base) && base + 16 <= |m|
    ensures var r := EncryptStep(k, CBC, f, m[base..base + 16]);
            Encrypting(k, m, r.0, out + r.1, base + 16)
  {
    PadSplit(m, base);
    NextMultiple(base);
    hide CbcEncrypt, EncryptStep, Pad, ZeroBlock, PadLength, Keys.Sized;
    CbcEncryptNext(k, f, m[base..base + 16], Pad(m)[base + 16..]);
  }

  lemma PadSplit(m: seq<byte>, base: nat)
    requires base + 16 <= |m|
    ensures Pad(m)[base..] == m[base..base + 16] + Pad(m)[base + 16..]
  {
  }

  lemma NextMultiple(base: nat)
    requires base % 16 == 0
    ensures (base + 16) % 16 == 0
  {
  }

  lemma OneBlock(k: Keys, f: seq<byte>, p: seq<byte>)
    requires k.Sized() && |f| == 16 && |p| == 16
    ensures CbcEncrypt(k, f, p) == EncryptStep(k, CBC, f, p).1
    ensures CbcDecrypt(k, f, p) == DecryptStep(k, CBC, f, p).1
  {
    assert p[..16] == p && p[16..] == [];
    hide EncryptStep, DecryptStep;
  }

  lemma EncryptingEnd(k: Keys, m: seq<byte>, f: seq<byte>, out: seq<byte>, base: nat, p: seq<byte>)
    requires k.Sized() && Encrypting(k, m, f, out, base) && |m| < base + 16
    requires p == m[base..] + Padding(16 - (|m| - base))
    ensures |p| == 16 && CbcEncrypt(k, ZeroBlock(), Pad(m)) == out + EncryptStep(k, CBC, f, p).1
  {
    PadTail(m, base, |m| - base);
    hide CbcEncrypt, EncryptStep, Pad, ZeroBlock, PadLength, Padding, Keys.Sized;
    OneBlock(k, f, p);
  }

  // ---------------------------------------------------------------- decryption

  /** for (i = 0; i < 16; i++) { buff[i] = ch; if (ipt >= c->len) { fin = 1; break; } ch = c->val[ipt++]; }
      with ch the byte read last, so that the byte before ipt is the one in hand. */
  method Take(buff: array<byte>, c: Octet, ipt: nat, ch: byte) returns (i: nat, next: nat, hand: byte, fin: bool)
    requires buff.Length == 16 && buff != c.val && 1 <= ipt <= c.len <= c.val.Length && ch == c.val[ipt - 1]
    modifies buff
    ensures i <= 16 && ipt <= next <= c.len && hand == c.val[next - 1]
    ensures if fin then i < 16 && next == c.len && ipt - 1 + i == c.len - 1 && buff[..i + 1] == c.val[ipt - 1..c.len]
            else i == 16 && next == ipt + 16 && buff[..] == c.val[ipt - 1..ipt + 15]
  {
    i, next, hand, fin := 0, ipt, ch, false;
    while i < 16
      invariant 0 <= i <= 16 && next == ipt + i <= c.len && hand == c.val[next - 1] && !fin
      invariant forall l :: 0 <= l < i ==> buff[l] == c.val[ipt - 1 + l]
    {
      buff[i] := hand;
      if next >= c.len {
        fin := true;
        break;
      } else {
        hand := c.val[next];
        next := next + 1;
      }
      i := i + 1;
    }
  }

  /** AES_decrypt(&a, buff) */
  method DecryptBlockIn(t: Tables, a: Context, buff: array<byte>, ghost k: Keys)
    requires InUse(t, a, k) && k.Sized() && buff.Length == 16 && Apart(a, buff)
    modifies a.f, buff
    ensures InUse(t, a, k)
    ensures var r := DecryptStep(k, CBC, old(a.f[..]), old(buff[..])); a.f[..] == r.0 && buff[..] == r.1
  {
    hide DecryptStep;
    var signed: bool := *;
    var _ := Decrypt(t, a, buff, signed);
  }

  /** AES_decrypt(&a, buff), and the sixteen bytes to the output. */
  method DecryptBlockTo(t: Tables, a: Context, buff: array<byte>, m: Octet, opt: nat, ghost k: Keys,
      ghost out: seq<byte>) returns (next: nat)
    requires InUse(t, a, k) && k.Sized() && buff.Length == 16 && m.val != buff && Apart(a, buff) && Apart(a, m.val)
    requires Written(m, opt, out)
    modifies a.f, buff, m.val
    ensures InUse(t, a, k)
    ensures var r := DecryptStep(k, CBC, old(a.f[..]), old(buff[..]));
            a.f[..] == r.0 && Written(m, next, out + r.1)
  {
    hide DecryptStep, Truncate;
    DecryptBlockIn(t, a, buff, k);
    assert buff[..16] == buff[..];
    next := Put(m, opt, buff, 16, out);
  }

  /** Char as an int, when plain char is signed and when it is not. */
  function CharValue(b: byte, signed: bool): int {
    if signed && b >= 0x80 then b as int - 256 else b as int
  }

  /** padlen = buff[15]; if (i != 15 || padlen < 1 || padlen > 16) bad = 1; and the comparison of the
      padding bytes, whichever way the compiler treats plain char. */
  method CheckPadding(buff: array<byte>, i: nat, signed: bool) returns (bad: bool, padlen: int)
    requires buff.Length == 16
    ensures bad <==> !(i == 15 && Padded(buff[..]))
    ensures !bad ==> padlen == buff[15] as int
  {
    bad := false;
    padlen := CharValue(buff[15], signed);
    if i != 15 || padlen < 1 || padlen > 16 { bad := true; }
    ghost var early := bad;
    SmallChar(buff[15], signed);
    if 2 <= padlen <= 16 {
      var j := 16 - padlen;
      while j < 16
        invariant 16 - padlen <= j <= 16
        invariant bad <==> early || exists l :: 16 - padlen <= l < j && buff[l] != buff[15]
      {
        SameChar(buff[j], buff[15], signed);
        if CharValue(buff[j], signed) != padlen { bad := true; }
        j := j + 1;
      }
    }
  }

  lemma SmallChar(b: byte, signed: bool)
    ensures 1 <= CharValue(b, signed) <= 16 <==> 1 <= b as int <= 16
    ensures 1 <= b as int <= 16 ==> CharValue(b, signed) == b as int
  {
  }

  lemma SameChar(a: byte, b: byte, signed: bool)
    ensures CharValue(a, signed) == CharValue(b, signed) <==> a == b
  {
  }

  /** The register after decrypting s from f on: the last ciphertext block. */
  function After(f: seq<byte>, s: seq<byte>): (r: seq<byte>)
    requires |f| == 16
    ensures |r| == 16
  {
    if |s| < 16 then f else s[|s| - 16..]
  }

  /** One more block after q whole ones. */
  lemma {:induction false} DecryptMore(k: Keys, f: seq<byte>, s: seq<byte>, q: nat, c: seq<byte>)
    requires k.Sized() && |f| == 16 && |s| == 16 * q && |c| == 16
    ensures CbcDecrypt(k, f, s + c) == CbcDecrypt(k, f, s) + DecryptStep(k, CBC, After(f, s), c).1
    decreases q
  {
    hide *;
    if q == 0 {
      SingleBlock(k, f, s, c);
    } else {
      var p, rest := s[..16], s[16..];
      assert s == p + rest;
      DecryptMore(k, p, rest, q - 1, c);
      LaterBlock(k, f, s, p, rest, c);
    }
  }

  lemma LaterBlock(k: Keys, f: seq<byte>, s: seq<byte>, p: seq<byte>, rest: seq<byte>, c: seq<byte>)
    requires k.Sized() && |f| == 16 && |p| == 16 && s == p + rest && |c| == 16 && (|rest| == 0 || |rest| >= 16)
    requires CbcDecrypt(k, p, rest + c) == CbcDecrypt(k, p, rest) + DecryptStep(k, CBC, After(p, rest), c).1
    ensures CbcDecrypt(k, f, s + c) == CbcDecrypt(k, f, s) + DecryptStep(k, CBC, After(f, s), c).1
  {
    AfterRest(f, p, rest);
    DecryptFirst(k, f, p);
    hide *;
    JoinBlocks(k, f, s, p, rest, c, DecryptStep(k, CBC, After(f, s), c).1);
  }

  lemma SingleBlock(k: Keys, f: seq<byte>, s: seq<byte>, c: seq<byte>)
    requires k.Sized() && |f| == 16 && |s| == 0 && |c| == 16
    ensures After(f, s) == f && CbcDecrypt(k, f, s + c) == CbcDecrypt(k, f, s) + DecryptStep(k, CBC, f, c).1
  {
    assert s == [] && s + c == c;
    OneBlock(k, f, c);
    CbcNothing(k, f);
    hide CbcDecrypt, DecryptStep, Keys.Sized;
  }

  lemma AfterLast(f: seq<byte>, s: seq<byte>, c: seq<byte>)
    requires |f| == 16 && |c| == 16
    ensures After(f, s + c) == c
  {
  }

  lemma AfterRest(f: seq<byte>, p: seq<byte>, rest: seq<byte>)
    requires |f| == 16 && |p| == 16 && (|rest| == 0 || |rest| >= 16)
    ensures After(p, rest) == After(f, p + rest)
  {
  }

  lemma JoinBlocks(k: Keys, f: seq<byte>, s: seq<byte>, p: seq<byte>, rest: seq<byte>, c: seq<byte>, d: seq<byte>)
    requires k.Sized() && |f| == 16 && |p| == 16 && s == p + rest && |c| == 16 && DecryptStep(k, CBC, f, p).0 == p
    requires CbcDecrypt(k, p, rest + c) == CbcDecrypt(k, p, rest) + d
    ensures CbcDecrypt(k, f, s + c) == CbcDecrypt(k, f, s) + d
  {
    assert Width(CBC) == 16;
    hide *;
    Joined(p, rest, c);
    CbcDecryptNext(k, f, p, rest);
    CbcDecryptNext(k, f, p, rest + c);
    Joined(DecryptStep(k, CBC, f, p).1, CbcDecrypt(k, p, rest), d);
  }

  lemma Joined(a: seq<byte>, b: seq<byte>, c: seq<byte>)
    ensures a + (b + c) == (a + b) + c
  {
  }

  lemma DecryptFirst(k: Keys, f: seq<byte>, c: seq<byte>)
    requires k.Sized() && |f| == 16 && |c| == 16
    ensures DecryptStep(k, CBC, f, c).0 == c
  {
    hide XorBytes, Decipher;
  }

  /** Between two blocks: q whole ones are done. */
  ghost predicate Decrypting(k: Keys, C: seq<byte>, f: seq<byte>, out: seq<byte>, q: nat)
    requires k.Sized()
  {
    |f| == 16 && 16 * q < |C| && f == After(ZeroBlock(), C[..16 * q]) && out == CbcDecrypt(k, ZeroBlock(), C[..16 * q])
  }

  lemma DecryptingStart(k: Keys, C: seq<byte>)
    requires k.Sized() && |C| > 0
    ensures Decrypting(k, C, ZeroBlock(), [], 0)
  {
    CbcNothing(k, ZeroBlock());
    hide CbcDecrypt;
  }

  lemma DecryptingNext(k: Keys, C: seq<byte>, f: seq<byte>, out: seq<byte>, q: nat)
    requires k.Sized() && Decrypting(k, C, f, out, q) && 16 * q + 16 < |C|
    ensures var r := DecryptStep(k, CBC, f, C[16 * q..16 * q + 16]); Decrypting(k, C, r.0, out + r.1, q + 1)
  {
    var s, c := C[..16 * q], C[16 * q..16 * q + 16];
    assert C[..16 * (q + 1)] == s + c;
    hide CbcDecrypt, DecryptStep, ZeroBlock, After, Keys.Sized;
    DecryptMore(k, ZeroBlock(), s, q, c);
    AfterLast(ZeroBlock(), s, c);
    DecryptFirst(k, f, c);
  }

  lemma PaddedTail(out: seq<byte>, t: seq<byte>)
    requires |t| == 16
    ensures Padded(out + t) <==> Padded(t)
    ensures Padded(t) ==> Unpad(out + t) == out + t[..16 - t[15] as int]
  {
    var s := out + t;
    assert s[|s| - 1] == t[15];
    assert forall i :: 0 <= i < 16 ==> s[|out| + i] == t[i];
    if Padded(s) {
      forall i | 16 - t[15] as int <= i < 16 ensures t[i] == t[15] {
        assert s[|out| + i] == s[|s| - 1];
      }
    }
  }

  /** Acceptance and delivery, given the output before the last block and that block. */
  function Outcome(out: seq<byte>, last: seq<byte>, i: nat): (bool, seq<byte>)
    requires |last| == 16
  {
    if i == 15 && Padded(last) then (true, out + last[..16 - last[15] as int]) else (false, out)
  }

  /** The last bytes, of which there are i+1: whole or not. */
  lemma DecryptingEnd(k: Keys, C: seq<byte>, f: seq<byte>, out: seq<byte>, q: nat, i: nat, last: seq<byte>)
    requires k.Sized() && Decrypting(k, C, f, out, q) && i < 16 && 16 * q + i + 1 == |C| && |last| == 16
    requires i == 15 ==> last == DecryptStep(k, CBC, f, C[16 * q..]).1
    ensures Decode(k, C) == Outcome(out, last, i)
  {
    EarlierBlocks(|C|, q, i);
    if i == 15 {
      var s, c := C[..16 * q], C[16 * q..];
      assert C == s + c;
      PaddedTail(out, last);
      hide CbcDecrypt, DecryptStep, ZeroBlock, After, Keys.Sized, Padded, Unpad;
      DecryptMore(k, ZeroBlock(), s, q, c);
    } else {
      hide CbcDecrypt, DecryptStep, ZeroBlock, After, Keys.Sized, Padded, Unpad;
    }
  }

  lemma EarlierBlocks(n: nat, q: nat, i: nat)
    requires i < 16 && n == 16 * q + i + 1
    ensures Earlier(n) == 16 * q && (n % 16 == 0 <==> i == 15)
  {
    assert (n - 1) % 16 == i;
  }

  /** The body of the loop: take up to sixteen bytes, decrypt, and deliver the block unless it is the
      last one. */
  method DecryptNext(t: Tables, a: Context, buff: array<byte>, c: Octet, m: Octet, ipt: nat, ch: byte, opt: nat,
                     ghost k: Keys, ghost C: seq<byte>, ghost out: seq<byte>, ghost q: nat)
    returns (i: nat, next: nat, hand: byte, fin: bool, put: nat, ghost more: seq<byte>)
    requires InUse(t, a, k) && k.Sized() && Decrypting(k, C, a.f[..], out, q) && Written(m, opt, out)
    requires buff.Length == 16 && buff != c.val && m.val != buff && m.val != c.val && c.val != a.f && Apart(a, buff)
      && Apart(a, m.val)
    requires c.len <= c.val.Length && c.val[..c.len] == C && 16 * q + 1 == ipt <= c.len && ch == c.val[ipt - 1]
    modifies a.f, buff, m.val
    ensures InUse(t, a, k) && Written(m, put, more)
    ensures c.val[..c.len] == C && ipt <= next <= c.len && hand == c.val[next - 1]
    ensures !fin ==> Decrypting(k, C, a.f[..], more, q + 1) && next == 16 * (q + 1) + 1
    ensures fin ==> i < 16 && more == out && Decode(k, C) == Outcome(out, buff[..], i)
  {
    hide Decrypting, InUse, Written, CbcDecrypt, DecryptStep, Keys.Sized, Decode, Outcome;
    more, put := out, opt;
    i, next, hand, fin := Take(buff, c, ipt, ch);
    if fin {
      SuffixOf(c.val[..], c.len, 16 * q, c.len);
      assert c.val[..][..c.len] == c.val[..c.len] && c.val[..][16 * q..c.len] == c.val[16 * q..c.len];
      DecryptTail(t, a, buff, i, k, C, out, q);
    } else {
      SuffixOf(c.val[..], c.len, 16 * q, 16 * q + 16);
      assert c.val[..][..c.len] == c.val[..c.len] && c.val[..][16 * q..16 * q + 16] == c.val[16 * q..16 * q + 16];
      put, more := DecryptFull(t, a, buff, m, opt, k, C, out, q);
    }
  }

  lemma SuffixOf(s: seq<byte>, n: nat, lo: nat, hi: nat)
    requires lo <= hi <= n <= |s|
    ensures s[..n][lo..hi] == s[lo..hi] && (hi == n ==> s[..n][lo..] == s[lo..hi])
  {
  }

  /** A block that is not the last. */
  method DecryptFull(t: Tables, a: Context, buff: array<byte>, m: Octet, opt: nat, ghost k: Keys, ghost C: seq<byte>,
      ghost out: seq<byte>, ghost q: nat)
    returns (put: nat, ghost more: seq<byte>)
    requires InUse(t, a, k) && k.Sized() && Decrypting(k, C, a.f[..], out, q) && Written(m, opt, out)
    requires buff.Length == 16 && m.val != buff && Apart(a, buff) && Apart(a, m.val)
    requires 16 * q + 16 < |C| && buff[..] == C[16 * q..16 * q + 16]
    modifies a.f, buff, m.val
    ensures InUse(t, a, k) && Written(m, put, more) && Decrypting(k, C, a.f[..], more, q + 1)
  {
    assert a.f.Length == 16;
    hide Decrypting, InUse, Written, CbcDecrypt, DecryptStep, Keys.Sized;
    DecryptingNext(k, C, a.f[..], out, q);
    more := out + DecryptStep(k, CBC, a.f[..], buff[..]).1;
    put := DecryptBlockTo(t, a, buff, m, opt, k, out);
  }

  /** The last block, perhaps not whole. */
  method DecryptTail(t: Tables, a: Context, buff: array<byte>, i: nat, ghost k: Keys, ghost C: seq<byte>,
      ghost out: seq<byte>, ghost q: nat)
    requires InUse(t, a, k) && k.Sized() && Decrypting(k, C, a.f[..], out, q)
    requires buff.Length == 16 && Apart(a, buff) && i < 16 && 16 * q + i + 1 == |C| && buff[..i + 1] == C[16 * q..]
    modifies a.f, buff
    ensures InUse(t, a, k) && Decode(k, C) == Outcome(out, buff[..], i)
  {
    assert a.f.Length == 16;
    hide Decrypting, InUse, CbcDecrypt, DecryptStep, Keys.Sized, Decode, Outcome;
    ghost var f, b := a.f[..], buff[..];
    DecryptBlockIn(t, a, buff, k);
    LastBytes(C, q, i, b);
    DecryptingEnd(k, C, f, out, q, i, buff[..]);
  }

  lemma LastBytes(C: seq<byte>, q: nat, i: nat, b: seq<byte>)
    requires |b| == 16 && i < 16 && 16 * q + i + 1 == |C| && b[..i + 1] == C[16 * q..]
    ensures i == 15 ==> b == C[16 * q..]
  {
  }

  /** The loop over blocks. */
  method DecryptBlocks(t: Tables, a: Context, buff: array<byte>, c: Octet, m: Octet, first: byte, ghost k: Keys,
      ghost C: seq<byte>)
    returns (i: nat, opt: nat, ghost out: seq<byte>)
    requires InUse(t, a, k) && k.Sized() && a.f.Length == 16 && a.f[..] == ZeroBlock()
    requires buff.Length == 16 && buff != c.val && m.val != buff && m.val != c.val && c.val != a.f && Apart(a, buff)
      && Apart(a, m.val)
    requires 1 <= c.len <= c.val.Length && c.val[..c.len] == C && first == c.val[0]
    modifies a.f, buff, m.val
    ensures i < 16 && Written(m, opt, out) && Decode(k, C) == Outcome(out, buff[..], i)
  {
    hide Decrypting, InUse, Written, CbcDecrypt, DecryptStep, Keys.Sized, Decode, Outcome, ZeroBlock;
    DecryptingStart(k, C);
    NothingWritten(m);
    out := [];
    opt := 0;
    ghost var q := 0;
    var ipt, ch, fin := 1, first, false;
    i := 0;
    while !fin
      invariant 1 <= ipt <= c.len && ch == c.val[ipt - 1] && c.val[..c.len] == C
      invariant InUse(t, a, k) && Written(m, opt, out)
      invariant !fin ==> Decrypting(k, C, a.f[..], out, q) && ipt == 16 * q + 1
      invariant fin ==> i < 16 && Decode(k, C) == Outcome(out, buff[..], i)
      decreases c.len - ipt, if fin then 0 else 1
      modifies a.f, buff, m.val
    {
      i, ipt, ch, fin, opt, out := DecryptNext(t, a, buff, c, m, ipt, ch, opt, k, C, out, q);
      q := q + 1;
    }
  }

  /** Checking the padding and delivering what comes before it. */
  method Finish(m: Octet, opt: nat, buff: array<byte>, i: nat, signed: bool, ghost out: seq<byte>)
      returns (ok: int, next: nat)
    requires buff.Length == 16 && m.val != buff && Written(m, opt, out)
    modifies m.val
    ensures var d := Outcome(out, old(buff[..]), i); ok == (if d.0 then 1 else 0) && Written(m, next, d.1)
  {
    hide Written;
    var bad, padlen := CheckPadding(buff, i, signed);
    next := opt;
    if !bad {
      next := Put(m, opt, buff, 16 - padlen, out);
    }
    ok := if bad then 0 else 1;
  }

  lemma Accepted(k: Keys, c: seq<byte>)
    requires k.Sized()
    ensures Decode(k, c).0 <==> |c| == 0 || (|c| % 16 == 0 && Padded(CbcDecrypt(k, ZeroBlock(), c)))
  {
    hide CbcDecrypt, Padded, ZeroBlock;
  }

  /** AES_CBC_IV0_DECRYPT, for a key of a length that AES_init accepts: 1 exactly when the ciphertext is
      empty or decrypts to padded whole blocks, 0 otherwise, and in either case the bytes delivered. */
  method CbcIv0Decrypt(t: Tables, k: Octet, c: Octet, m: Octet, signed: bool) returns (ok: int)
    requires t.Mixed() && k.Valid() && c.Valid() && m.Valid() && KeyWords(k.len / 4)
    requires m != c && m != k && m.val != c.val && m.val != k.val
    modifies m, m.val
    ensures m.Valid()
    ensures ok == 0 || ok == 1
    ensures var s := old(c.Contents());
            ok == 1 <==>
              || |s| == 0
              || (|s| % 16 == 0 && Padded(CbcDecrypt(KeysFor(t, old(k.Contents()), k.len / 4), ZeroBlock(), s)))
    ensures m.Contents() == Truncate(Decode(KeysFor(t, old(k.Contents()), k.len / 4), old(c.Contents())).1,
      m.val.Length)
  {
    ghost var K, C := KeysFor(t, k.Contents(), k.len / 4), c.Contents();
    Accepted(K, C);
    m.len := 0;
    if c.len == 0 { return 1; }
    hide *;
    var opt;
    ok, opt := DecryptAll(t, k, c, m, signed);
    m.len := opt;
    Delivered(m, opt, Decode(K, C).1);
  }

  lemma Delivered(m: Octet, opt: nat, out: seq<byte>)
    requires Written(m, opt, out) && m.len == opt
    ensures m.Valid() && m.Contents() == Truncate(out, m.val.Length)
  {
  }

  /** What AES_CBC_IV0_DECRYPT does with a ciphertext that is not empty, up to the length of m. */
  method DecryptAll(t: Tables, k: Octet, c: Octet, m: Octet, signed: bool) returns (ok: int, opt: nat)
    requires t.Mixed() && k.Valid() && c.Valid() && KeyWords(k.len / 4) && c.len > 0
    requires m.val != c.val && m.val != k.val
    modifies m.val
    ensures var d := Decode(KeysFor(t, k.Contents(), k.len / 4), c.Contents());
            ok == (if d.0 then 1 else 0) && Written(m, opt, d.1)
  {
    var ch := c.val[0];
    var a := Start(t, k);
    ghost var K, C := KeysFor(t, k.Contents(), k.len / 4), c.Contents();
    hide InUse, ZeroBlock, Decode, Outcome, KeysFor, Written, Tables.Mixed, Keys.Sized;
    var buff := new byte[16];
    var i;
    ghost var out;
    i, opt, out := DecryptBlocks(t, a, buff, c, m, ch, K, C);
    ok, opt := Finish(m, opt, buff, i, signed, out);
  }
}
