/** Row-by-row multiplication with `muladd`: BIG_mul without COMBA, and BIG_smul. */
module BigRows {
  import opened Arith
  import opened Words
  import opened Limbs
  import opened Columns

  /** Which muladd the build has.  The one on half words needs an even BASEBITS, and every chunk is an
      even number of bits wide. */
  ghost predicate MuladdReady(cfg: Config, wide: bool) {
    Spare(cfg) && (wide || (cfg.bits % 2 == 0 && cfg.chunk % 2 == 0))
  }

  /** muladd as the preprocessor selects it: `wide` when a dchunk exists.  What is added to the product
      may be up to four digits' worth. */
  method Muladd(cfg: Config, wide: bool, x: int, y: int, c: int, r: array<int>, k: nat) returns (top: int)
    requires MuladdReady(cfg, wide) && k < r.Length
    requires 0 <= x < cfg.Radix() && 0 <= y < cfg.Radix() && 0 <= c && 0 <= r[k]
    requires c + r[k] < 4 * cfg.Radix()
    modifies r
    ensures 0 <= r[k] < cfg.Radix()
    ensures x * y + c + old(r[k]) == top * cfg.Radix() + r[k]
    ensures r[..] == old(r[..])[k := r[k]]
    ensures 0 <= top
  {
    SpareHalf(cfg);
    if wide {
      WideRoom(x, y, c + r[k], cfg.Radix(), cfg.Half());
      top := MuladdWide(cfg, x, y, c, r, k);
    } else {
      top := MuladdHalves(cfg, x, y, c, r, k);
    }
  }

  lemma WideRoom(x: int, y: int, z: int, R: int, half: int)
    requires R >= 2 && 0 <= x < R && 0 <= y < R && 0 <= z < 4 * R && 4 * R <= half
    ensures x * y + z < half * R
  {
    MulMono(x, R, y);
    MulMono(y, R, R);
    MulMono(2, R, R);
    MulMono(4 * R, half, R);
    MulAssoc(4, R, R);
  }

  /** How far one muladd can carry. */
  lemma MuladdTop(x: int, y: int, c: int, r: int, top: int, low: int, R: int)
    requires R >= 2 && 0 <= x < R && 0 <= y < R && 0 <= c < R && 0 <= r <= 2 * R && 0 <= low
    requires x * y + c + r == top * R + low
    ensures top <= R + 1
    ensures r < R ==> top < R
  {
    MulBound(x, y, R - 1);
    MulDist(R, 1, R - 1);
    MulDist(R, 1, R);
    if top >= R + 2 {
      MulMono(R + 2, top, R);
      MulDist(R, 2, R);
    }
    if r < R && top >= R {
      MulMono(R, top, R);
    }
  }

  /** Adding x*y into one limb of weight p, in terms of values. */
  lemma RowStep(val: int, val': int, old': int, c: int, r: int, r': int, top: int, x: int, y: int, vb: int, p: int,
      q: int, R: int)
    requires val + c * (p * q) == old' + (x * vb) * p
    requires x * y + c + r == top * R + r'
    requires val' == val + r' * (p * q)
    ensures val' + top * (R * (p * q)) == old' + r * (p * q) + (x * (vb + y * q)) * p
  {
    var w := p * q;
    assert (x * y) * w + c * w + r * w == (top * R) * w + r' * w by {
      MulDist(x * y, c, w);
      MulDist(x * y + c, r, w);
      MulDist(top * R, r', w);
    }
    assert (x * (vb + y * q)) * p == (x * vb) * p + (x * y) * w by {
      MulDist(vb, y * q, x);
      MulDist(x * vb, x * (y * q), p);
      MulAssoc(x, y, q);
      MulAssoc(x * y, q, p);
      assert q * p == w;
    }
    MulAssoc(top, R, w);
  }

  /** A row over m limbs from limb i, of which the first `done` are through: C was there before. */
  ghost predicate RowState(C: seq<int>, B: seq<int>, c: seq<int>, i: nat, done: nat, m: nat, x: int, carry: int, R: int)
    requires done <= m <= |B| && i + m <= |C|
  {
    && |c| == |C| && m >= 1 && (forall l :: 0 <= l < |c| && !(i <= l < i + done) ==> c[l] == C[l])
    && Digits(c, i, i + done, R)
    && Val(c, i + done, R) + carry * Pow(R, i + done) == Val(C, i + done, R) + (x * Val(B, done, R)) * Pow(R, i)
    && 0 <= carry <= R + 1 && (done < m || C[i + m - 1] < R ==> carry < R)
  }

  /** carry = muladd(x, b[j], carry, &c[i+j]) */
  method RowLimb(cfg: Config, wide: bool, c: array<int>, i: nat, j: nat, x: int, b: array<int>, ghost m: nat,
      ghost C: seq<int>, carry0: int)
    returns (carry: int)
    requires MuladdReady(cfg, wide) && c != b && b.Length == cfg.nlen && Normal(b[..], cfg.Radix())
      && 0 <= x < cfg.Radix()
    requires j < m <= cfg.nlen && i + m <= c.Length == |C|
    requires Digits(C, i, i + m - 1, cfg.Radix()) && 0 <= C[i + m - 1] <= 2 * cfg.Radix()
    requires RowState(C, b[..], c[..], i, j, m, x, carry0, cfg.Radix())
    modifies c
    ensures RowState(C, b[..], c[..], i, j + 1, m, x, carry, cfg.Radix())
  {
    ghost var before, B, R := c[..], b[..], cfg.Radix();
    hide Val, Pow, Config.Radix;
    carry := Muladd(cfg, wide, x, b[j], carry0, c, i + j);
    MuladdTop(x, B[j], carry0, C[i + j], carry, c[i + j], R);
    RowSeqs(before, c[..], C, B, i, j, x, carry0, carry, R);
  }

  /** One row: c += x*b*R^i over the limbs below `limit`, returning the carry out of the last one. */
  method MuladdRow(cfg: Config, wide: bool, c: array<int>, i: nat, x: int, b: array<int>, limit: nat)
      returns (carry: int)
    requires MuladdReady(cfg, wide) && c != b && b.Length == cfg.nlen
    requires 0 <= x < cfg.Radix() && Normal(b[..], cfg.Radix())
    requires i < limit <= c.Length
    requires limit <= i + cfg.nlen ==> Digits(c[..], i, limit, cfg.Radix())
    requires limit > i + cfg.nlen ==>
               Digits(c[..], i, i + cfg.nlen - 1, cfg.Radix()) && 0 <= c[i + cfg.nlen - 1] <= 2 * cfg.Radix()
    modifies c
    ensures var m := if limit <= i + cfg.nlen then limit - i else cfg.nlen;
            RowState(old(c[..]), b[..], c[..], i, m, m, x, carry, cfg.Radix())
  {
    var n := cfg.nlen;
    ghost var R, m := cfg.Radix(), if limit <= i + n then limit - i else n;
    ghost var C, B := c[..], b[..];
    carry := 0;
    var j := 0;
    RowStart(C, B, i, m, x, R);
    hide RowState, Val, Pow, Config.Radix;
    ghost var done := 0;
    while j < n
      invariant 0 <= j <= n && done == if j <= m then j else m
      invariant RowState(C, B, c[..], i, done, m, x, carry, R)
      modifies c
    {
      if i + j < limit {
        carry := RowLimb(cfg, wide, c, i, j, x, b, m, C, carry);
        done := done + 1;
      }
      j := j + 1;
    }
  }

  lemma RowStart(C: seq<int>, B: seq<int>, i: nat, m: nat, x: int, R: int)
    requires R >= 1 && 1 <= m <= |B| && i + m <= |C|
    ensures RowState(C, B, C, i, 0, m, x, 0, R)
  {
    assert Val(B, 0, R) == 0;
  }

  lemma RowSeqs(before: seq<int>, after: seq<int>, C: seq<int>, B: seq<int>, i: nat, j: nat, x: int, c: int, top: int,
      R: int)
    requires |before| == |after| == |C| && i + j < |C| && j < |B|
    requires after == before[i + j := after[i + j]] && before[i + j] == C[i + j]
    requires Val(before, i + j, R) + c * Pow(R, i + j) == Val(C, i + j, R) + (x * Val(B, j, R)) * Pow(R, i)
    requires x * B[j] + c + C[i + j] == top * R + after[i + j]
    ensures Val(after, i + j + 1, R) + top * Pow(R, i + j + 1)
      == Val(C, i + j + 1, R) + (x * Val(B, j + 1, R)) * Pow(R, i)
  {
    ValFrame(before, after, i + j, R);
    PowAdd(R, i, j);
    RowStep(Val(before, i + j, R), Val(after, i + j + 1, R), Val(C, i + j, R), c, C[i + j], after[i + j], top,
            x, B[j], Val(B, j, R), Pow(R, i), Pow(R, j), R);
  }

  /** for (i = 0; i < len; i++) a[i] = 0 */
  method Zero(a: array<int>)
    modifies a
    ensures forall j :: 0 <= j < a.Length ==> a[j] == 0
  {
    var i := 0;
    while i < a.Length
      invariant 0 <= i <= a.Length
      invariant forall j :: 0 <= j < i ==> a[j] == 0
    {
      a[i] := 0;
      i := i + 1;
    }
  }

  /** BIG_mul by rows. */
  method MulRows(cfg: Config, wide: bool, c: array<int>, a: array<int>, b: array<int>)
    requires MuladdReady(cfg, wide) && a.Length == b.Length == cfg.nlen && c.Length == 2 * cfg.nlen
    requires c != a && c != b
    requires Normal(a[..], cfg.Radix()) && Normal(b[..], cfg.Radix())
    modifies c
    ensures c[..] == Product(a[..], b[..], cfg.Radix())
  {
    var n := cfg.nlen;
    ghost var R, A, B := cfg.Radix(), a[..], b[..];
    Zero(c);
    ValZero(c[..], n, R);
    assert Val(c[..], 0 + n, R) == Val(A, 0, R) * Value(B, R);
    hide Val, Pow, Value, Config.Radix;
    var i := 0;
    while i < n
      invariant 0 <= i <= n
      invariant Digits(c[..], 0, i + n, R)
      invariant forall j :: i + n <= j < 2 * n ==> c[j] == 0
      invariant Val(c[..], i + n, R) == Val(A, i, R) * Value(B, R)
    {
      ghost var before := c[..];
      var carry := MuladdRow(cfg, wide, c, i, a[i], b, 2 * n);
      ghost var after := c[..];
      c[n + i] := carry;
      ValFrame(after, c[..], n + i, R);
      NextRow(A, i, Value(B, R), Val(before, i + n, R), Val(after, i + n, R), carry * Pow(R, n + i), R);
      i := i + 1;
    }
    ProductUnique(A, B, c[..], R);
  }

  lemma NextRow(a: seq<int>, i: nat, vb: int, before: int, after: int, carried: int, R: int)
    requires i < |a| && before == Val(a, i, R) * vb
    requires after + carried == before + (a[i] * vb) * Pow(R, i)
    ensures after + carried == Val(a, i + 1, R) * vb
  {
    var p := Pow(R, i);
    MulDist(Val(a, i, R), a[i] * p, vb);
    assert (a[i] * vb) * p == (a[i] * p) * vb by {
      MulAssoc(a[i], vb, p);
      MulAssoc(a[i], p, vb);
    }
  }

  /** BIG_smul: the rows are cut off at NLEN limbs, which computes the product modulo R^NLEN. */
  method SMul(cfg: Config, wide: bool, c: array<int>, a: array<int>, b: array<int>)
    requires MuladdReady(cfg, wide) && a.Length == b.Length == c.Length == cfg.nlen
    requires c != a && c != b
    requires Normal(a[..], cfg.Radix()) && Normal(b[..], cfg.Radix())
    modifies c
    ensures Normal(c[..], cfg.Radix())
    ensures Pow(cfg.Radix(), cfg.nlen) > 0
    ensures Value(c[..], cfg.Radix())
      == (Value(a[..], cfg.Radix()) * Value(b[..], cfg.Radix())) % Pow(cfg.Radix(), cfg.nlen)
  {
    var n := cfg.nlen;
    ghost var R, A, B := cfg.Radix(), a[..], b[..];
    PowPositive(R, n);
    Zero(c);
    ValZero(c[..], n, R);
    CongRefl(0, Pow(R, n));
    var i := 0;
    while i < n
      invariant 0 <= i <= n
      invariant Digits(c[..], 0, n, R)
      invariant Cong(Val(c[..], n, R), Val(A, i, R) * Value(B, R), Pow(R, n))
    {
      ghost var before := c[..];
      var carry := MuladdRow(cfg, wide, c, i, a[i], b, n);
      CutRow(A, B, i, Val(before, n, R), Val(c[..], n, R), carry, n, R);
      i := i + 1;
    }
    NormalBounds(c[..], R);
    CongMod(Value(c[..], R), Value(A, R) * Value(B, R), Pow(R, n));
    DivModUnique(Value(c[..], R), Pow(R, n), 0, Value(c[..], R));
  }

  lemma HighPart(x: int, q: int, high: int, p: int)
    ensures (x * (q * high)) * p == (x * high) * (q * p)
  {
    assert q * high == high * q;
    MulAssoc(x, high, q);
    MulAssoc(x * high, q, p);
  }

  lemma CutRow(a: seq<int>, b: seq<int>, i: nat, before: int, after: int, carry: int, n: nat, R: int)
    requires i < |a| && i < n == |b| && R >= 1 && Pow(R, n) > 0
    requires Cong(before, Val(a, i, R) * Value(b, R), Pow(R, n))
    requires after + carry * Pow(R, n) == before + (a[i] * Val(b, n - i, R)) * Pow(R, i)
    ensures Cong(after, Val(a, i + 1, R) * Value(b, R), Pow(R, n))
  {
    var p, q, m, vb := Pow(R, i), Pow(R, n - i), Pow(R, n), Value(b, R);
    var low, high := Val(b, n - i, R), Val(b[n - i..], i, R);
    ValSplit(b, n - i, n, R);
    PowAdd(R, n - i, i);
    assert (a[i] * vb) * p == (a[i] * low) * p + (a[i] * high) * m by {
      MulDist(low, q * high, a[i]);
      MulDist(a[i] * low, a[i] * (q * high), p);
      HighPart(a[i], q, high, p);
    }
    var x := before + (a[i] * vb) * p;
    assert after == x + (-carry - a[i] * high) * m by {
      MulDist(-carry, a[i] * high, m);
    }
    CongIntro(after, x, -carry - a[i] * high, m);
    CongRefl((a[i] * vb) * p, m);
    CongAdd(before, Val(a, i, R) * vb, (a[i] * vb) * p, (a[i] * vb) * p, m);
    CongTrans(after, x, Val(a, i, R) * vb + (a[i] * vb) * p, m);
    NextRow(a, i, vb, Val(a, i, R) * vb, Val(a, i, R) * vb + (a[i] * vb) * p, 0, R);
  }
}
