/** The two-word shifts of Int128 on pairs of words, and what they mean for the number. */
module Shifts {
  import opened Basics
  import opened Words

  function Num(hi: int, lo: int): int {
    hi * W + lo
  }

  /** Word shifts: bits that leave a word are lost. */
  function Shr(x: nat, n: nat): nat {
    DivNonNegative(x, Pow2(n));
    x / Pow2(n)
  }

  lemma DivNonNegative(x: nat, p: int)
    requires p > 0
    ensures x / p >= 0 && x - x % p >= 0
  {
    var q := x / p;
    if q < 0 {
      LessEqTimes(q, -1, p);
    }
    LessEqTimes(0, q, p);
  }

  function Shl(x: int, n: nat): u64 {
    U(x * Pow2(n))
  }

  /** operator<<= for 0 < n < 64: high word. */
  function ShlHi(hi: i64, lo: u64, n: nat): i64
    requires 0 < n < 64
  {
    var mask := U(-1 - (Pow2(64 - n) - 1));
    S(Or(U(S(Shl(U(hi), n))), Shr(And(lo, mask), 64 - n)))
  }

  function ShlLo(lo: u64, n: nat): u64 {
    Shl(lo, n)
  }

  /** operator>>= for 0 < n < 64: low word. */
  function ShrLo(hi: i64, lo: u64, n: nat): u64
    requires 0 < n < 64
  {
    U(Or(Shr(lo, n), Shl(And(U(hi), Pow2(n) - 1), 64 - n)))
  }

  lemma DivMod(x: int, p: int)
    requires p > 0
    ensures x == x / p * p + x % p && 0 <= x % p < p
  {
  }

  lemma MulComm(a: int, b: int)
    ensures a * b == b * a
  {
  }

  lemma MulAssoc(a: int, b: int, c: int)
    ensures a * (b * c) == (a * b) * c
  {
  }

  lemma SParts(x: int) returns (k: int)
    ensures x == S(x) + k * W && U(S(x)) == U(x)
  {
    k := (x + 0x8000_0000_0000_0000) / W;
    UPeriod(S(x), k);
  }

  lemma UPeriod(x: int, k: int)
    ensures U(x + k * W) == U(x)
  {
    var q := x / W;
    Distribute(q, k, W);
    ModOf(x + k * W, U(x), q + k, W);
  }

  lemma UOfU(x: int)
    ensures U(S(U(x))) == U(x)
  {
    var k := SParts(U(x));
  }

  lemma SOfCongruent(x: int, y: int, k: int)
    requires x == y + k * W
    ensures S(x) == S(y)
  {
    UPeriod(y + 0x8000_0000_0000_0000, k);
  }

  lemma Split64(n: nat)
    requires n <= 64
    ensures Pow2(n) * Pow2(64 - n) == W
  {
    Pow2Add(n, 64 - n);
    Pow2Of64();
  }

  /** The bits shifted out of the low word, and what stays. */
  lemma LowWordSplit(lo: u64, p: nat, q: nat)
    requires p > 0 && q > 0 && p * q == W
    ensures lo * p == lo / q * W + (lo % q) * p && 0 <= (lo % q) * p < W && lo / q < p
    ensures ((lo % q) * p) % p == 0
  {
    var c, r := lo / q, lo % q;
    assert lo == c * q + r;
    Distribute(c * q, r, p);
    MulComm(c * q, p);
    MulAssoc(c, q, p);
    MulComm(p, q);
    MulComm(c, q);
    assert (c * q) * p == c * W;
    LessTimes(r, q, p);
    if c >= p {
      LessEqTimes(p, c, q);
    }
    ModOf(r * p, 0, r, p);
  }

  lemma LessTimes(r: int, q: int, p: int)
    requires 0 <= r < q && p > 0
    ensures 0 <= r * p < q * p
  {
  }

  lemma LessEqTimes(a: int, b: int, q: int)
    requires a <= b && q >= 0
    ensures a * q <= b * q
  {
  }

  /** A multiple of p stays one modulo W when p divides W. */
  lemma ModKeepsMultiple(x: int, p: int, q: int)
    requires p > 0 && q > 0 && p * q == W
    ensures U(x * p) % p == 0
  {
    var k := (x * p) / W;
    assert U(x * p) == x * p - k * W;
    MulComm(p, q);
    MulAssoc(k, q, p);
    Distribute(x, k * q, p);
    ModOf(U(x * p), 0, x - k * q, p);
  }

  lemma ShlLowPart(lo: u64, n: nat)
    requires 0 < n < 64
    ensures lo * Pow2(n) == lo / Pow2(64 - n) * W + ShlLo(lo, n)
    ensures lo / Pow2(64 - n) < Pow2(n)
  {
    Split64(n);
    LowWordSplit(lo, Pow2(n), Pow2(64 - n));
    ModOf(lo * Pow2(n), (lo % Pow2(64 - n)) * Pow2(n), lo / Pow2(64 - n), W);
  }

  /** The bits that `<<=` carries from the low into the high word. */
  lemma CarriedBits(lo: u64, n: nat)
    requires 0 < n < 64
    ensures Shr(And(lo, U(-1 - (Pow2(64 - n) - 1))), 64 - n) == lo / Pow2(64 - n)
  {
    hide And, U, Pow2;
    var q := Pow2(64 - n);
    Pow2Of64();
    Pow2Monotone(64 - n, 64);
    HighMask(q);
    DivNonNegative(lo, q);
    AndHighMask(lo, 64, 64 - n);
    DivMod(lo, q);
    ModOf(lo - lo % q, 0, lo / q, q);
  }

  lemma HighMask(q: int)
    requires 0 < q <= W
    ensures U(-1 - (q - 1)) == W - q
  {
    ModOf(-q, W - q, -1, W);
  }

  lemma ShlHighPart(hi: i64, lo: u64, n: nat)
    requires 0 < n < 64
    ensures ShlHi(hi, lo, n) == S(hi * Pow2(n) + lo / Pow2(64 - n))
  {
    hide Or, And;
    var p, q := Pow2(n), Pow2(64 - n);
    var c := Shr(lo, 64 - n);
    Split64(n);
    CarriedBits(lo, n);
    ShlLowPart(lo, n);
    var k := SParts(U(hi) * p);
    UOfU(U(hi) * p);
    ModKeepsMultiple(U(hi), p, q);
    OrDisjoint(U(U(hi) * p), c, n);
    ShlHighCongruent(hi, U(hi), hi / W, p, c);
  }

  lemma ShlHighCongruent(hi: int, uhi: u64, h: int, p: int, c: int)
    requires hi == uhi + h * W
    ensures S(U(uhi * p) + c) == S(hi * p + c)
  {
    Distribute(uhi, h * W, p);
    MulComm(h * W, p);
    MulAssoc(p, h, W);
    var k := (uhi * p) / W;
    assert uhi * p == U(uhi * p) + k * W;
    Distribute(p * h, k, W);
    SOfCongruent(hi * p + c, U(uhi * p) + c, p * h + k);
  }

  /** << by less than a word multiplies by 2^n modulo 2^128. */
  lemma ShlValue(hi: i64, lo: u64, n: nat)
    requires 0 < n < 64
    ensures Num(ShlHi(hi, lo, n), ShlLo(lo, n)) == Wrap(Num(hi, lo) * Pow2(n))
  {
    var p, c := Pow2(n), lo / Pow2(64 - n);
    ShlHighPart(hi, lo, n);
    ShlLowPart(lo, n);
    var k := SParts(hi * p + c);
    NumTimes(hi, lo, p);
    Distribute(hi * p, c, W);
    Distribute(ShlHi(hi, lo, n), k * W, W);
    MulAssoc(k, W, W);
    WrapIs(Num(hi, lo) * p, Num(ShlHi(hi, lo, n), ShlLo(lo, n)), k);
  }

  lemma NumTimes(hi: int, lo: int, p: int)
    ensures Num(hi, lo) * p == (hi * p) * W + lo * p
  {
    Distribute(hi * W, lo, p);
    MulComm(hi * W, p);
    MulAssoc(p, hi, W);
    MulComm(p, hi);
  }

  lemma ShrLowPart(hi: i64, lo: u64, n: nat)
    requires 0 < n < 64
    ensures ShrLo(hi, lo, n) == lo / Pow2(n) + (hi % Pow2(n)) * Pow2(64 - n)
  {
    hide Or, And;
    var p, q := Pow2(n), Pow2(64 - n);
    Split64(n);
    MulComm(p, q);
    AndMask(U(hi), n);
    LowWordSplit(lo, q, p);
    var h := hi / W;
    assert hi == U(hi) + h * W;
    SameLowBits(hi, U(hi), h, p, q);
    LessTimes(hi % p, p, q);
    assert U((hi % p) * q) == (hi % p) * q;
    ModOf((hi % p) * q, 0, hi % p, q);
    OrDisjoint((hi % p) * q, lo / p, 64 - n);
    assert (hi % p) * q + lo / p < W by {
      LessEqTimes(hi % p, p - 1, q);
      Distribute(p, 1, q);
    }
  }

  lemma SameLowBits(hi: int, uhi: int, h: int, p: int, q: int)
    requires p > 0 && p * q == W && hi == uhi + h * W
    ensures hi % p == uhi % p
  {
    MulComm(p, q);
    MulAssoc(h, q, p);
    var k := uhi / p;
    Distribute(k, h * q, p);
    ModOf(hi, uhi % p, k + h * q, p);
  }

  lemma ShrNum(hi: int, lo: int, a: int, b: int, c: int, d: int, p: int, q: int)
    requires p > 0 && q * p == W && 0 <= d < p && hi == a * p + b && lo == c * p + d
    ensures Num(hi, lo) / p == Num(a, c + b * q)
  {
    var r := Num(a, c + b * q);
    NumTimes(a, c + b * q, p);
    Distribute(c, b * q, p);
    MulAssoc(b, q, p);
    Distribute(a * p, b, W);
    ModOf(Num(hi, lo), d, r, p);
  }

  /** >> by less than a word is floor division by 2^n. */
  lemma ShrValue(hi: i64, lo: u64, n: nat)
    requires 0 < n < 64
    ensures Num(hi / Pow2(n), ShrLo(hi, lo, n)) == Num(hi, lo) / Pow2(n)
  {
    hide ShrLo, Shr, Shl, Pow2, Num;
    var p, q := Pow2(n), Pow2(64 - n);
    Split64(n);
    MulComm(p, q);
    ShrLowPart(hi, lo, n);
    DivMod(hi, p);
    DivMod(lo, p);
    ShrNum(hi, lo, hi / p, hi % p, lo / p, lo % p, p, q);
  }

  /** << by a word or more, up to 127. */
  lemma ShlWordValue(hi: i64, lo: u64, n: nat)
    requires 64 <= n < 128
    ensures Num(S(Shl(lo, n - 64)), 0) == Wrap(Num(hi, lo) * Pow2(n))
  {
    var p := Pow2(n - 64);
    Pow2Add(n - 64, 64);
    Pow2Of64();
    var j := SParts(lo * p);
    UWithinS(lo * p);
    NumTimes(hi, lo, p);
    MulAssoc(Num(hi, lo), p, W);
    Distribute((hi * p) * W, lo * p, W);
    MulAssoc(hi * p, W, W);
    Distribute(S(lo * p), j * W, W);
    MulAssoc(j, W, W);
    Distribute(hi * p, j, M);
    WrapIs(Num(hi, lo) * Pow2(n), Num(S(lo * p), 0), hi * p + j);
  }

  lemma UWithinS(x: int)
    ensures S(U(x)) == S(x)
  {
    SOfCongruent(x, U(x), x / W);
  }

  /** >> by a word or more, up to 127. */
  lemma ShrWordValue(hi: i64, lo: u64, n: nat)
    requires 64 <= n < 128
    ensures Num(if hi < 0 then -1 else 0, U(hi / Pow2(n - 64))) == Num(hi, lo) / Pow2(n)
  {
    var p := Pow2(n - 64);
    Pow2Add(n - 64, 64);
    Pow2Of64();
    var a, b := hi / p, hi % p;
    DivMod(hi, p);
    QuotientRange(hi, a, b, p);
    if hi < 0 {
      ModOf(a, a + W, -1, W);
    } else {
      ModOf(a, a, 0, W);
    }
    LessEqTimes(b, p - 1, W);
    Distribute(p, 1, W);
    Distribute(a * p, b, W);
    MulAssoc(a, p, W);
    ModOf(Num(hi, lo), b * W + lo, a, p * W);
  }

  lemma QuotientRange(x: int, a: int, b: int, p: int)
    requires p > 0 && 0 <= b < p && x == a * p + b && -W / 2 <= x < W / 2
    ensures -W / 2 <= a < W / 2 && (a < 0 <==> x < 0)
  {
    if a < 0 {
      LessEqTimes(a, -1, p);
    } else {
      LessEqTimes(0, a, p);
    }
    if a >= 0 {
      LessEqTimes(1, p, a);
      MulComm(a, p);
    } else {
      LessEqTimes(1, p, -a);
      MulComm(-a, p);
      if p == 1 {
      } else {
        LessEqTimes(2, p, -a);
      }
    }
  }

  /** Shifting everything out. */
  lemma BigShiftValue(v: int, n: nat)
    requires InRange(v) && n >= 128
    ensures Wrap(v * Pow2(n)) == 0 && v / Pow2(n) == if v < 0 then -1 else 0
  {
    Pow2Add(n - 128, 128);
    Pow2Of64();
    MulAssoc(v, Pow2(n - 128), M);
    WrapIs(v * Pow2(n), 0, v * Pow2(n - 128));
    Pow2Monotone(128, n);
    if v < 0 {
      ModOf(v, v + Pow2(n), -1, Pow2(n));
    } else {
      ModOf(v, v, 0, Pow2(n));
    }
  }
}
