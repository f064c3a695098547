/** 64-bit words as integers: two's complement wrap-around, bitwise operators and shifts. */
module Words {
  import opened Basics

  const W: int := 0x1_0000_0000_0000_0000
  const M: int := 0x1_0000_0000_0000_0000_0000_0000_0000_0000

  type u64 = x: int | 0 <= x < 0x1_0000_0000_0000_0000
  type i64 = x: int | -0x8000_0000_0000_0000 <= x < 0x8000_0000_0000_0000

  /** Conversions to unsigned and to signed, keeping the low 64 bits. */
  function U(x: int): u64 {
    x % W
  }

  function S(x: int): i64 {
    (x + 0x8000_0000_0000_0000) % W - 0x8000_0000_0000_0000
  }

  /** The value that remains of `x` in 128 bits of two's complement. */
  function Wrap(x: int): (r: int)
    ensures -M / 2 <= r < M / 2
  {
    (x + M / 2) % M - M / 2
  }

  predicate InRange(x: int) {
    -M / 2 <= x < M / 2
  }

  lemma WrapIs(x: int, y: int, k: int)
    requires InRange(y) && x == y + k * M
    ensures Wrap(x) == y
  {
    assert x + M / 2 == (y + M / 2) + k * M;
    ModOf(x + M / 2, y + M / 2, k, M);
  }

  lemma AtLeastOnce(d: int, m: int)
    requires d >= 1 && m > 0
    ensures d * m >= m
  {
  }

  lemma Distribute(a: int, b: int, m: int)
    ensures (a + b) * m == a * m + b * m
    ensures (a - b) * m == a * m - b * m
  {
  }

  lemma ModOf(x: int, r: int, k: int, m: int)
    requires m > 0 && 0 <= r < m && x == r + k * m
    ensures x % m == r && x / m == k
  {
    var q := x / m;
    Distribute(q, k, m);
    Distribute(k, q, m);
    if q > k {
      AtLeastOnce(q - k, m);
    } else if q < k {
      AtLeastOnce(k - q, m);
    }
  }

  lemma WrapParts(x: int) returns (k: int)
    ensures x == Wrap(x) + k * M
  {
    k := (x + M / 2) / M;
  }

  lemma WrapAdd(x: int, y: int)
    ensures Wrap(Wrap(x) + Wrap(y)) == Wrap(x + y)
  {
    var i := WrapParts(x);
    var j := WrapParts(y);
    var k := WrapParts(Wrap(x) + Wrap(y));
    assert x + y == Wrap(Wrap(x) + Wrap(y)) + (i + j + k) * M;
    WrapIs(x + y, Wrap(Wrap(x) + Wrap(y)), i + j + k);
  }

  lemma WrapPeriod(x: int, k: int)
    ensures Wrap(x + k * M) == Wrap(x)
  {
    var i := WrapParts(x);
    assert i * M + k * M == (i + k) * M;
    WrapIs(x + k * M, Wrap(x), i + k);
  }

  // ---------------------------------------------------------------------------------
  // Bitwise operators

  function And(a: nat, b: nat): nat {
    if a == 0 || b == 0 then 0
    else 2 * And(a / 2, b / 2) + if a % 2 == 1 && b % 2 == 1 then 1 else 0
  }

  function Or(a: nat, b: nat): nat {
    if a == 0 then b else if b == 0 then a
    else 2 * Or(a / 2, b / 2) + if a % 2 == 1 || b % 2 == 1 then 1 else 0
  }

  lemma HalfOfMod(x: nat, n: nat)
    requires n > 0
    ensures x % Pow2(n) == 2 * ((x / 2) % Pow2(n - 1)) + x % 2
    ensures x / Pow2(n) == (x / 2) / Pow2(n - 1)
  {
    var p := Pow2(n - 1);
    var q, r := (x / 2) / p, (x / 2) % p;
    assert x == 2 * (q * p + r) + x % 2;
    assert 2 * (q * p) == q * (2 * p);
    ModOf(x, 2 * r + x % 2, q, 2 * p);
  }

  lemma {:induction false} AndMask(x: nat, n: nat)
    ensures And(x, Pow2(n) - 1) == x % Pow2(n)
  {
    if n == 0 {
    } else if x != 0 {
      assert (Pow2(n) - 1) / 2 == Pow2(n - 1) - 1 && (Pow2(n) - 1) % 2 == 1;
      AndMask(x / 2, n - 1);
      HalfOfMod(x, n);
    }
  }

  /** A mask of ones from bit m up to bit k - 1. */
  lemma {:induction false} AndHighMask(x: nat, k: nat, m: nat)
    requires m <= k && x < Pow2(k)
    ensures Pow2(m) <= Pow2(k) && And(x, Pow2(k) - Pow2(m)) == x - x % Pow2(m)
  {
    hide And;
    Pow2Monotone(m, k);
    if m == 0 {
      AndMask(x, k);
      ModOf(x, x, 0, Pow2(k));
    } else {
      var high, low := Pow2(k - 1), Pow2(m - 1);
      AndHighMask(x / 2, k - 1, m - 1);
      HalfOfMod(x, m);
      AndEven(x, high - low);
      assert Pow2(k) - Pow2(m) == 2 * (high - low);
      assert And(x, Pow2(k) - Pow2(m)) == 2 * (x / 2 - (x / 2) % low);
    }
  }

  lemma AndEven(x: nat, b: nat)
    ensures And(x, 2 * b) == 2 * And(x / 2, b)
  {
  }

  lemma {:induction false} AndBit(x: nat, n: nat)
    ensures And(x, Pow2(n)) != 0 <==> (x / Pow2(n)) % 2 == 1
  {
    if x == 0 {
    } else if n == 0 {
      assert And(x / 2, 0) == 0;
    } else {
      AndBit(x / 2, n - 1);
      HalfOfMod(x, n);
    }
  }

  /** Disjoint halves: the or of a multiple of 2^n and a number below 2^n is their sum. */
  lemma {:induction false} OrDisjoint(a: nat, b: nat, n: nat)
    requires a % Pow2(n) == 0 && b < Pow2(n)
    ensures Or(a, b) == a + b == Or(b, a)
  {
    if n == 0 || a == 0 || b == 0 {
    } else {
      HalfOfMod(a, n);
      OrDisjoint(a / 2, b / 2, n - 1);
    }
  }

  /** Setting a bit that is clear. */
  lemma {:induction false} OrBit(x: nat, n: nat)
    requires (x / Pow2(n)) % 2 == 0
    ensures Or(x, Pow2(n)) == x + Pow2(n)
  {
    if x == 0 {
    } else if n == 0 {
    } else {
      HalfOfMod(x, n);
      OrBit(x / 2, n - 1);
    }
  }

  /** Setting a bit that is set. */
  lemma {:induction false} OrBitSet(x: nat, n: nat)
    requires (x / Pow2(n)) % 2 == 1
    ensures Or(x, Pow2(n)) == x
  {
    if n == 0 {
    } else {
      HalfOfMod(x, n);
      OrBitSet(x / 2, n - 1);
    }
  }

  lemma Pow2Of64()
    ensures Pow2(8) == 256 && Pow2(16) == 65536 && Pow2(32) == 0x1_0000_0000
    ensures Pow2(63) == 0x8000_0000_0000_0000 && Pow2(64) == W
    ensures Pow2(127) == M / 2 && Pow2(128) == M
  {
    assert Pow2(4) == 16;
    Pow2Add(4, 4);
    Pow2Add(8, 8);
    Pow2Add(16, 16);
    Pow2Add(32, 32);
    Pow2Add(64, 64);
    assert Pow2(64) == 2 * Pow2(63);
    assert Pow2(128) == 2 * Pow2(127);
  }
}
