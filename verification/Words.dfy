/** Machine words, the limb configuration, and the two `muladd` primitives.

    A chunk is a signed word of `chunk` bits and a dchunk one of twice that width.  `Word` and
    `Dword` reduce a mathematical result to such a word the way two's complement does, so a result
    that is used exactly must first be shown to be in range. */
module Words {
  import opened Arith

  /** The signed w-bit word congruent to x modulo 2^w. */
  function Wrap(x: int, w: nat): (r: int)
    requires w >= 1
    ensures -Pow(2, w - 1) <= r < Pow(2, w - 1)
    decreases if x < -Pow(2, w - 1) then -Pow(2, w - 1) - x else if x >= Pow(2, w - 1) then x - Pow(2, w - 1) + 1 else 0
  {
    PowPositive(2, w - 1);
    if x < -Pow(2, w - 1) then Wrap(x + Pow(2, w), w)
    else if x >= Pow(2, w - 1) then Wrap(x - Pow(2, w), w)
    else x
  }

  lemma {:induction false} WrapCong(x: int, w: nat)
    requires w >= 1
    ensures Pow(2, w) > 0 && Cong(Wrap(x, w), x, Pow(2, w))
    decreases if x < -Pow(2, w - 1) then -Pow(2, w - 1) - x else if x >= Pow(2, w - 1) then x - Pow(2, w - 1) + 1 else 0
  {
    PowPositive(2, w - 1);
    var m := Pow(2, w);
    if x < -Pow(2, w - 1) {
      WrapCong(x + m, w);
      CongIntro(x + m, x, 1, m);
      CongTrans(Wrap(x, w), x + m, x, m);
    } else if x >= Pow(2, w - 1) {
      WrapCong(x - m, w);
      CongIntro(x - m, x, -1, m);
      CongTrans(Wrap(x, w), x - m, x, m);
    } else {
      CongRefl(x, m);
    }
  }

  /** BASEBITS, NLEN and CHUNK of one instance of the template. */
  datatype Config = Config(bits: nat, nlen: nat, chunk: nat) {

    ghost predicate Valid() {
      bits >= 1 && nlen >= 2 && chunk >= bits + 1
    }

    /** The radix 2^BASEBITS; BMASK is one less. */
    function Radix(): (r: int)
      requires bits >= 1
      ensures r >= 2
    {
      PowMonotone(2, 1, bits);
      assert Pow(2, 1) == 2 * Pow(2, 0);
      Pow(2, bits)
    }

    /** Chunks lie in [-Half, Half). */
    function Half(): (r: int)
      requires Valid()
      ensures r >= 2
    {
      PowMonotone(2, 1, chunk - 1);
      assert Pow(2, 1) == 2 * Pow(2, 0);
      Pow(2, chunk - 1)
    }

    /** Dchunks lie in [-DHalf, DHalf). */
    function DHalf(): (r: int)
      requires Valid()
      ensures r >= 1
    {
      PowPositive(2, 2 * chunk - 1);
      Pow(2, 2 * chunk - 1)
    }

    /** NEXCESS: how many normalised digits may be added before a digit overflows. */
    function Nexcess(): (r: int)
      requires Valid()
      ensures r >= 1
    {
      PowPositive(2, chunk - bits - 1);
      Pow(2, chunk - bits - 1)
    }

    lemma HalfIsExcess()
      requires Valid()
      ensures Half() == Nexcess() * Radix()
    {
      PowAdd(2, chunk - bits - 1, bits);
    }

    /** Truncation of a result to a chunk. */
    function Word(x: int): (w: int)
      requires Valid()
      ensures -Half() <= w < Half()
      ensures -Half() <= x < Half() ==> w == x
    {
      Wrap(x, chunk)
    }

    /** Truncation of a result to a dchunk. */
    function Dword(x: int): (w: int)
      requires Valid()
      ensures -DHalf() <= w < DHalf()
      ensures -DHalf() <= x < DHalf() ==> w == x
    {
      Wrap(x, 2 * chunk)
    }

    /** Truncating to a chunk keeps the low BASEBITS bits, so a mask after it loses nothing. */
    lemma WordMask(x: int)
      requires Valid()
      ensures Cong(Word(x), x, Radix()) && Word(x) % Radix() == x % Radix()
    {
      WrapCong(x, chunk);
      PowAdd(2, bits, chunk - bits);
      PowPositive(2, chunk - bits);
      CongWeaken(Word(x), x, Radix(), Pow(2, chunk - bits));
      CongMod(Word(x), x, Radix());
    }
  }

  /** Two spare bits per chunk (besides the sign): a difference of a double and a single number can
      be normalised. */
  ghost predicate Spare(cfg: Config) {
    cfg.Valid() && cfg.bits >= 2 && cfg.chunk >= cfg.bits + 3
  }

  lemma SpareHalf(cfg: Config)
    requires Spare(cfg)
    ensures 4 * cfg.Radix() <= cfg.Half()
    ensures cfg.bits % 2 == 0 && cfg.chunk % 2 == 0 ==> 8 * cfg.Radix() <= cfg.Half()
  {
    cfg.HalfIsExcess();
    var e := cfg.chunk - cfg.bits - 1;
    assert Pow(2, 3) == 2 * Pow(2, 2) && Pow(2, 2) == 2 * Pow(2, 1) && Pow(2, 1) == 2 * Pow(2, 0);
    PowMonotone(2, 2, e);
    MulMono(4, cfg.Nexcess(), cfg.Radix());
    if cfg.bits % 2 == 0 && cfg.chunk % 2 == 0 {
      PowMonotone(2, 3, e);
      MulMono(8, cfg.Nexcess(), cfg.Radix());
    }
  }

  /** x*y + c + r with a double-width intermediate. */
  method MuladdWide(cfg: Config, x: int, y: int, c: int, r: array<int>, k: nat) returns (top: int)
    requires cfg.Valid() && k < r.Length
    requires 0 <= x < cfg.Half() && 0 <= y < cfg.Half() && 0 <= c < cfg.Half() && 0 <= r[k] < cfg.Half()
    requires x * y + c + r[k] < cfg.Half() * cfg.Radix()
    modifies r
    ensures 0 <= r[k] < cfg.Radix()
    ensures x * y + c + old(r[k]) == top * cfg.Radix() + r[k]
    ensures r[..] == old(r[..])[k := r[k]]
    ensures 0 <= top < cfg.Half()
  {
    MulMono(0, x, y);
    DwordRoom(cfg);
    ghost var sum := x * y + c + r[k];
    var prod := cfg.Dword(x * y + c + r[k]);
    assert prod == sum;
    hide *;
    top := Digit(cfg, prod, r, k);
  }

  /** *r = (chunk)prod & BMASK; return (chunk)(prod >> BASEBITS) */
  method Digit(cfg: Config, prod: int, r: array<int>, k: nat) returns (top: int)
    requires cfg.Valid() && k < r.Length && 0 <= prod < cfg.Half() * cfg.Radix()
    modifies r
    ensures r[..] == old(r[..])[k := r[k]] && 0 <= r[k] < cfg.Radix()
    ensures prod == top * cfg.Radix() + r[k] && 0 <= top < cfg.Half()
  {
    hide Pow, Wrap, Config.Radix, Config.Half, Config.Word;
    cfg.WordMask(prod);
    DivBounds(prod, cfg.Radix(), 0, cfg.Half());
    r[k] := cfg.Word(prod) % cfg.Radix();
    top := cfg.Word(prod / cfg.Radix());
  }

  lemma DwordRoom(cfg: Config)
    requires cfg.Valid()
    ensures cfg.Half() * cfg.Radix() <= cfg.DHalf()
  {
    PowAdd(2, cfg.chunk - 1, cfg.bits);
    PowMonotone(2, cfg.chunk - 1 + cfg.bits, 2 * cfg.chunk - 1);
  }

  /** The same result from half-word products, for targets without a double-width type. */
  method MuladdHalves(cfg: Config, x: int, y: int, c: int, r: array<int>, k: nat) returns (top: int)
    requires cfg.Valid() && cfg.bits % 2 == 0 && k < r.Length
    requires 0 <= x < cfg.Radix() && 0 <= y < cfg.Radix() && 0 <= c && 0 <= r[k]
    requires c + r[k] + 2 * cfg.Radix() <= cfg.Half()
    modifies r
    ensures 0 <= r[k] < cfg.Radix()
    ensures x * y + c + old(r[k]) == top * cfg.Radix() + r[k]
    ensures r[..] == old(r[..])[k := r[k]]
    ensures 0 <= top < cfg.Half()
  {
    var h := Pow(2, cfg.bits / 2);
    PowAdd(2, cfg.bits / 2, cfg.bits / 2);
    PowPositive(2, cfg.bits / 2);
    HalfDigits(x, h);
    HalfDigits(y, h);
    var x0, x1 := x % h, x / h;
    var y0, y1 := y % h, y / h;
    ghost var z, m := c + r[k], x0 * y1 + x1 * y0;
    HalfRanges(x0, x1, y0, y1, m, x0 * y0 + (m % h) * h + z, h, z, cfg.Half());
    HalfCarry(x * y + z, x1 * y1 + m / h, x0 * y0 + (m % h) * h + z, cfg.Radix());
    HalvesTop(x, y, cfg.Radix(), z, cfg.Half());
    var bot;
    top, bot := HalfProducts(cfg, x0, x1, y0, y1, h, r[k], c);
    hide *;
    top := HalfResult(cfg, top, bot, r, k);
  }

  /** The two halves before the last carry: bot collects the low one, top the high one. */
  method HalfProducts(cfg: Config, x0: int, x1: int, y0: int, y1: int, h: int, r: int, c: int)
      returns (top: int, bot: int)
    requires cfg.Valid() && h >= 1 && 0 <= x0 < h && 0 <= x1 < h && 0 <= y0 < h && 0 <= y1 < h
    requires 0 <= c && 0 <= r && c + r + 2 * (h * h) <= cfg.Half()
    ensures var m := x0 * y1 + x1 * y0;
            top == x1 * y1 + m / h && bot == x0 * y0 + (m % h) * h + (c + r) && 0 <= top < cfg.Half()
                && 0 <= bot < cfg.Half()
  {
    ghost var m := x0 * y1 + x1 * y0;
    HalfRanges(x0, x1, y0, y1, m, x0 * y0 + (m % h) * h + (c + r), h, c + r, cfg.Half());
    hide Pow, Wrap, Config.Radix, Config.Half, Config.Word;
    bot := cfg.Word(x0 * y0);
    top := cfg.Word(x1 * y1);
    var mid := cfg.Word(cfg.Word(x0 * y1) + cfg.Word(x1 * y0));
    var low, high := mid % h, mid / h;
    bot := cfg.Word(bot + cfg.Word(low * h));
    bot := cfg.Word(bot + r);
    bot := cfg.Word(bot + c);
    top := cfg.Word(top + high);
  }

  /** carry = bot >> BASEBITS; *r = bot & BMASK; return top + carry */
  method HalfResult(cfg: Config, high: int, bot: int, r: array<int>, k: nat) returns (top: int)
    requires cfg.Valid() && k < r.Length && 0 <= bot < cfg.Half() && 0 <= high + bot / cfg.Radix() < cfg.Half()
    modifies r
    ensures top == high + bot / cfg.Radix() && r[k] == bot % cfg.Radix() && r[..] == old(r[..])[k := r[k]]
  {
    hide Pow, Wrap, Config.Radix, Config.Half, Config.Word;
    top := cfg.Word(high + bot / cfg.Radix());
    r[k] := bot % cfg.Radix();
  }

  lemma HalfDigits(x: int, h: int)
    requires h >= 1 && 0 <= x < h * h
    ensures 0 <= x % h < h && 0 <= x / h < h && x == (x / h) * h + x % h
  {
    DivBounds(x, h, 0, h);
  }

  /** Every intermediate of the half-word scheme is a non-negative word, and the two halves of the
      result are the quotient and the remainder of x*y + z. */
  lemma HalfRanges(x0: int, x1: int, y0: int, y1: int, mid: int, low: int, h: int, z: int, half: int)
    requires h >= 1 && 0 <= x0 < h && 0 <= x1 < h && 0 <= y0 < h && 0 <= y1 < h
    requires 0 <= z && z + 2 * (h * h) <= half
    requires mid == x0 * y1 + x1 * y0 && low == x0 * y0 + (mid % h) * h + z
    ensures 0 <= x0 * y0 < half && 0 <= x1 * y1 < half && 0 <= x0 * y1 < half && 0 <= x1 * y0 < half
    ensures 0 <= mid < half
    ensures 0 <= (mid % h) * h && 0 <= x0 * y0 + (mid % h) * h && low < half
    ensures 0 <= x1 * y1 + mid / h < half
    ensures h * h >= 1
    ensures (x1 * h + x0) * (y1 * h + y0) + z == (x1 * y1 + mid / h) * (h * h) + low
  {
    HalfProduct(x0, y0, h);
    HalfProduct(x1, y1, h);
    HalfProduct(x0, y1, h);
    HalfProduct(x1, y0, h);
    HalfSum(x0, x1, y0, y1, h, mid);
    HalfMiddle(mid, h);
    SquareGrows(h);
  }

  lemma SquareGrows(h: int)
    requires h >= 1
    ensures 1 <= h <= h * h
  {
    MulMono(1, h, h);
  }

  lemma HalfCarry(s: int, top: int, low: int, R: int)
    requires R > 0 && s == top * R + low
    ensures s / R == top + low / R && s % R == low % R
    ensures s == (top + low / R) * R + low % R
  {
    MulDist(top, low / R, R);
    DivModUnique(s, R, top + low / R, low % R);
  }

  lemma HalfMiddle(mid: int, h: int)
    requires h >= 1 && 0 <= mid <= 2 * (h * h) - 4 * h + 2
    ensures 0 <= mid / h < 2 * h
    ensures 0 <= (mid % h) * h <= h * h - h
  {
    MulAssoc(2, h, h);
    DivBounds(mid, h, 0, 2 * h);
    MulMono(mid % h, h - 1, h);
    MulMono(0, mid % h, h);
    MulDist(h, 1, h);
  }

  lemma HalvesTop(x: int, y: int, R: int, z: int, half: int)
    requires R >= 2 && 0 <= x < R && 0 <= y < R && 0 <= z && z + 2 * R <= half
    ensures 0 <= (x * y + z) / R < half
  {
    MulMono(x, R, y);
    MulMono(y, R, R);
    MulMono(1, R, z);
    MulDist(R, z, R);
    assert x * y + z < (R + z + 1) * R by { MulDist(R + z, 1, R); }
    assert 0 * R <= x * y + z by { MulMono(0, x, y); }
    DivBounds(x * y + z, R, 0, R + z + 1);
  }

  /** Every half-word product stays well below the radix h*h. */
  lemma HalfProduct(u: int, v: int, h: int)
    requires 0 <= u < h && 0 <= v < h
    ensures 0 <= u * v <= h * h - 2 * h + 1
  {
    MulBound(u, v, h - 1);
    MulDist(h, 1, h - 1);
    MulDist(h, 1, h);
  }

  /** (x1*h + x0) * (y1*h + y0), with the cross products gathered in mid and split once more. */
  lemma HalfSum(x0: int, x1: int, y0: int, y1: int, h: int, mid: int)
    requires h >= 1
    requires mid == x0 * y1 + x1 * y0
    ensures (x1 * h + x0) * (y1 * h + y0) == (x1 * y1 + mid / h) * (h * h) + (x0 * y0 + (mid % h) * h)
  {
    MulDist(x1 * h, x0, y1 * h + y0);
    MulDist(y1 * h, y0, x1 * h);
    MulDist(y1 * h, y0, x0);
    assert (x1 * h) * (y1 * h) == (x1 * y1) * (h * h) by { FourFactors(x1, h, y1, h); }
    assert (x1 * h) * y0 == (x1 * y0) * h by { MulAssoc(x1, h, y0); MulAssoc(x1, y0, h); }
    assert x0 * (y1 * h) == (x0 * y1) * h by { MulAssoc(x0, y1, h); }
    MulDist(x0 * y1, x1 * y0, h);
    var q, r := mid / h, mid % h;
    assert mid * h == q * (h * h) + r * h by {
      assert mid == q * h + r;
      MulDist(q * h, r, h);
      MulAssoc(q, h, h);
    }
    MulDist(x1 * y1, q, h * h);
  }

  lemma FourFactors(a: int, b: int, c: int, d: int)
    ensures (a * b) * (c * d) == (a * c) * (b * d)
  {
    MulAssoc(a, b, c * d);
    assert b * (c * d) == c * (b * d) by { MulAssoc(b, c, d); MulAssoc(c, b, d); }
    MulAssoc(a, c, b * d);
  }
}
