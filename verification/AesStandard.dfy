/** The cipher and its inverse as FIPS 197 states them, on the sixteen bytes of a state, for an S-box given as a
    function. Byte 4c + r of a state is in row r of column c (section 3.4). */
module AesStandard {
  import opened AesWord
  import opened AesField

  type Bytes = seq<byte>

  // ---------------------------------------------------------------- the steps

  /** Section 5.1.1. */
  function SubBytes(S: byte -> byte, s: Bytes): (r: Bytes)
    requires |s| == 16
    ensures |r| == 16
  {
    seq(16, i requires 0 <= i < 16 => S(s[i]))
  }

  /** Section 5.1.2: row r moves r places to the left. */
  function ShiftRows(s: Bytes): (r: Bytes)
    requires |s| == 16
    ensures |r| == 16
  {
    seq(16, i requires 0 <= i < 16 => s[4 * ((i / 4 + i % 4) % 4) + i % 4])
  }

  /** Section 5.3.1: and back. */
  function InvShiftRows(s: Bytes): (r: Bytes)
    requires |s| == 16
    ensures |r| == 16
  {
    seq(16, i requires 0 <= i < 16 => s[4 * ((i / 4 + 4 - i % 4) % 4) + i % 4])
  }

  /** The byte d rows below byte i in its column, rows counted modulo four. */
  function Below(i: nat, d: nat): (j: nat)
    requires i < 16
    ensures j < 16
  {
    4 * (i / 4) + (i % 4 + d) % 4
  }

  function Sum(a: byte, b: byte, c: byte, d: byte): byte {
    a ^ b ^ c ^ d
  }

  /** Sections 5.1.3 and 5.3.3: each byte becomes the sum of those of its column, from itself down, times a, b, c
      and d. */
  function Mix(a: byte, b: byte, c: byte, d: byte, s: Bytes): (r: Bytes)
    requires |s| == 16
    ensures |r| == 16
  {
    seq(16, i requires 0 <= i < 16 =>
      Sum(Times(a, s[i]), Times(b, s[Below(i, 1)]), Times(c, s[Below(i, 2)]), Times(d, s[Below(i, 3)])))
  }

  function MixColumns(s: Bytes): (r: Bytes)
    requires |s| == 16
    ensures |r| == 16
  {
    Mix(2, 3, 1, 1, s)
  }

  function InvMixColumns(s: Bytes): (r: Bytes)
    requires |s| == 16
    ensures |r| == 16
  {
    Mix(0xe, 0xb, 0xd, 0x9, s)
  }

  /** Section 5.1.4, with key i of the schedule w. */
  function AddRoundKey(s: Bytes, w: Bytes, i: nat): (r: Bytes)
    requires |s| == 16 && 16 * i + 16 <= |w|
    ensures |r| == 16
  {
    seq(16, j requires 0 <= j < 16 => X(s[j], w[16 * i + j]))
  }

  // ---------------------------------------------------------------- the cipher

  /** The state after the first key and i rounds. */
  function Rounds(S: byte -> byte, w: Bytes, s: Bytes, i: nat): (r: Bytes)
    requires |s| == 16 && 16 * i + 16 <= |w|
    ensures |r| == 16
  {
    if i == 0 then AddRoundKey(s, w, 0)
    else AddRoundKey(MixColumns(ShiftRows(SubBytes(S, Rounds(S, w, s, i - 1)))), w, i)
  }

  /** Section 5.1. */
  function Cipher(S: byte -> byte, w: Bytes, nr: nat, s: Bytes): (r: Bytes)
    requires |s| == 16 && nr >= 1 && 16 * nr + 16 <= |w|
    ensures |r| == 16
  {
    AddRoundKey(ShiftRows(SubBytes(S, Rounds(S, w, s, nr - 1))), w, nr)
  }

  /** The state after the last key and i inverse rounds, given the inverse of the S-box. */
  function InvRounds(S: byte -> byte, w: Bytes, nr: nat, s: Bytes, i: nat): (r: Bytes)
    requires |s| == 16 && i <= nr && 16 * nr + 16 <= |w|
    ensures |r| == 16
  {
    if i == 0 then AddRoundKey(s, w, nr)
    else InvMixColumns(AddRoundKey(SubBytes(S, InvShiftRows(InvRounds(S, w, nr, s, i - 1))), w, nr - i))
  }

  /** Section 5.3: the inverse cipher, with the keys in their own order of expansion. */
  function InvCipher(S: byte -> byte, w: Bytes, nr: nat, s: Bytes): (r: Bytes)
    requires |s| == 16 && nr >= 1 && 16 * nr + 16 <= |w|
    ensures |r| == 16
  {
    AddRoundKey(SubBytes(S, InvShiftRows(InvRounds(S, w, nr, s, nr - 1))), w, 0)
  }

  // ---------------------------------------------------------------- the key expansion

  /** The powers of the indeterminate, from the zeroth. */
  function Rcon(i: nat): byte
    requires i >= 1
  {
    if i == 1 then 1 else Times(2, Rcon(i - 1))
  }

  /** Byte r of word i of an expansion (section 5.2), from the words before it. */
  function ExpandedByte(S: byte -> byte, key: Bytes, nk: nat, w: Bytes, i: nat, r: nat): byte
    requires nk >= 1 && 4 * nk <= |key| && 4 * i <= |w| && r < 4
  {
    if i < nk then key[4 * i + r]
    else
      X(w[4 * (i - nk) + r],
        if i % nk == 0 then X(S(w[4 * (i - 1) + (r + 1) % 4]), if r == 0 then Rcon(i / nk) else 0)
        else if nk > 6 && i % nk == 4 then S(w[4 * (i - 1) + r])
        else w[4 * (i - 1) + r])
  }

  /** w is the expansion of a key of nk words for nr rounds. */
  ghost predicate IsExpansion(S: byte -> byte, key: Bytes, nk: nat, nr: nat, w: Bytes)
    requires nk >= 1 && 4 * nk <= |key|
  {
    && |w| == 16 * nr + 16
    && forall i, r :: 0 <= i < 4 * nr + 4 && 0 <= r < 4 ==> w[4 * i + r] == ExpandedByte(S, key, nk, w, i, r)
  }
}
