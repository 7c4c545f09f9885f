/** The counter register: sixteen bytes, least significant first. */
module AesCounter {
  import opened Arith
  import opened AesWord

  /** The number a register holds. */
  function Count(s: seq<byte>): nat {
    if |s| == 0 then 0 else s[0] as int + 256 * Count(s[1..])
  }

  /** The register after one increment: the carry runs up while bytes wrap to zero. */
  function Next(s: seq<byte>): (r: seq<byte>)
    ensures |r| == |s|
  {
    if |s| == 0 then []
    else if s[0] == 0xff then [0] + Next(s[1..])
    else [s[0] + 1] + s[1..]
  }

  lemma ByteUp(b: byte)
    ensures b != 0xff ==> b + 1 != 0 && (b + 1) as int == b as int + 1
    ensures b == 0xff ==> b + 1 == 0 && b as int == 255
  {
  }

  lemma {:induction false} CountBounds(s: seq<byte>)
    ensures Count(s) < Pow(256, |s|)
  {
    if |s| > 0 {
      CountBounds(s[1..]);
      assert s[0] as int <= 255;
    }
  }

  /** The increment adds one modulo 256 to the number of bytes. */
  lemma {:induction false} NextCounts(s: seq<byte>)
    ensures Pow(256, |s|) > 0 && Count(Next(s)) == (Count(s) + 1) % Pow(256, |s|)
  {
    PowPositive(256, |s|);
    if |s| == 0 {
      DivModUnique(1, 1, 1, 0);
    } else {
      CountBounds(s);
      CountBounds(Next(s));
      NextCases(s);
      if s[0] == 0xff {
        NextCounts(s[1..]);
        PowNext(256, |s| - 1);
        hide *;
        CarryUp(Count(s), Count(Next(s)), Count(s[1..]), Pow(256, |s| - 1), Pow(256, |s|));
      } else {
        hide *;
        DivModUnique(Count(s) + 1, Pow(256, |s|), 0, Count(s) + 1);
      }
    }
  }

  lemma NextCases(s: seq<byte>)
    requires |s| > 0
    ensures s[0] == 0xff ==> Count(s) == 255 + 256 * Count(s[1..]) && Count(Next(s)) == 256 * Count(Next(s[1..]))
    ensures s[0] != 0xff ==> Count(Next(s)) == Count(s) + 1
  {
    ByteUp(s[0]);
    if s[0] == 0xff {
      assert Next(s)[1..] == Next(s[1..]);
    } else {
      assert Next(s)[1..] == s[1..];
    }
  }

  lemma CarryUp(c: int, next: int, tail: int, m: int, M: int)
    requires m > 0 && M == 256 * m && c == 255 + 256 * tail && next == 256 * ((tail + 1) % m)
    ensures next == (c + 1) % M
  {
    DivModScale(tail + 1, m, 256);
  }

  /** A byte counts up when all bytes before it wrap. */
  lemma {:induction false} NextByte(s: seq<byte>, j: nat)
    requires j < |s|
    ensures Next(s)[j] == if forall i :: 0 <= i < j ==> s[i] == 0xff then s[j] + 1 else s[j]
    decreases j
  {
    ByteUp(s[0]);
    if j > 0 && s[0] == 0xff {
      var tail := s[1..];
      NextByte(tail, j - 1);
      assert Next(s)[j] == Next(tail)[j - 1];
      assert (forall i :: 0 <= i < j ==> s[i] == 0xff) <==> (forall i :: 0 <= i < j - 1 ==> tail[i] == 0xff) by {
        if forall i :: 0 <= i < j - 1 ==> tail[i] == 0xff {
          assert forall i :: 0 < i < j ==> s[i] == tail[i - 1];
        }
      }
    }
  }

  /** increment */
  method Increment(f: array<byte>)
    requires f.Length == 16
    modifies f
    ensures f[..] == Next(old(f[..]))
  {
    ghost var s := f[..];
    var i := 0;
    while i < 16
      invariant 0 <= i <= 16
      invariant forall j :: 0 <= j < i ==> s[j] == 0xff && f[j] == 0
      invariant forall j :: i <= j < 16 ==> f[j] == s[j]
      modifies f
    {
      ByteUp(f[i]);
      NextAt(s, i);
      f[i] := f[i] + 1;
      if f[i] != 0 {
        assert f[..] == Next(s);
        return;
      }
      i := i + 1;
    }
    NextAt(s, 16);
    assert f[..] == Next(s);
  }

  /** The increment of a register whose first i bytes wrap and, if there is one, the next does not. */
  lemma {:induction false} NextAt(s: seq<byte>, i: nat)
    requires i <= |s| && forall j :: 0 <= j < i ==> s[j] == 0xff
    ensures i < |s| && s[i] != 0xff ==>
              forall j :: 0 <= j < |s| ==> Next(s)[j] == if j < i then 0 else if j == i then s[i] + 1 else s[j]
    ensures i == |s| ==> forall j :: 0 <= j < |s| ==> Next(s)[j] == 0
    decreases i
  {
    if i > 0 {
      var tail := s[1..];
      NextAt(tail, i - 1);
      forall j | 0 <= j < |s| && (i == |s| || s[i] != 0xff)
        ensures Next(s)[j] == if j < i then 0 else if j == i then s[i] + 1 else s[j]
      {
        assert j > 0 ==> Next(s)[j] == Next(tail)[j - 1];
      }
    }
  }

  /** The register after n increments. */
  function Later(s: seq<byte>, n: nat): (r: seq<byte>)
    ensures |r| == |s|
    decreases n
  {
    if n == 0 then s else Next(Later(s, n - 1))
  }

  lemma {:induction false} LaterCounts(s: seq<byte>, n: nat)
    ensures Pow(256, |s|) > 0 && Count(Later(s, n)) == (Count(s) + n) % Pow(256, |s|)
    decreases n
  {
    var m := Pow(256, |s|);
    CountBounds(s);
    if n == 0 {
      DivModUnique(Count(s), m, 0, Count(s));
    } else {
      LaterCounts(s, n - 1);
      NextCounts(Later(s, n - 1));
      CongOfMod(Count(s) + n - 1, m);
      CongRefl(1, m);
      CongAdd((Count(s) + n - 1) % m, Count(s) + n - 1, 1, 1, m);
      CongMod((Count(s) + n - 1) % m + 1, Count(s) + n, m);
    }
  }

  /** Any run of at most 2^128 counter blocks has no two alike. */
  lemma CountersDiffer(s: seq<byte>, i: nat, j: nat)
    requires |s| == 16 && i < j < i + Pow(256, 16)
    ensures Later(s, i) != Later(s, j)
  {
    var m := Pow(256, 16);
    LaterCounts(s, i);
    LaterCounts(s, j);
    if Later(s, i) == Later(s, j) {
      CongMod(Count(s) + j, Count(s) + i, m);
      assert Cong(Count(s) + j, Count(s) + i, m);
      CongUnique(Count(s) + j, Count(s) + i, m);
    }
  }
}
