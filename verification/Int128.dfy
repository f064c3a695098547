/** The 128-bit integer: a low unsigned and a high signed word, changed in place by the
    compound operators. Each operator is proved against the number the two words stand for. */
module Int128Arithmetic {
  import opened Basics
  import opened Words
  import opened Shifts

  const MIN: int := -M / 2

  /** operator<, word by word. */
  predicate LessWords(ahi: i64, alo: u64, bhi: i64, blo: u64) {
    if ahi == bhi then
      if ahi < 0 then S(alo) < S(blo) else alo < blo
    else ahi < bhi
  }

  /** operator< compares the numbers, except exactly between two negative numbers with equal
      high words whose low words differ in their top bit. */
  lemma LessIsNumericExactlyWhen(ahi: i64, alo: u64, bhi: i64, blo: u64)
    ensures (LessWords(ahi, alo, bhi, blo) <==> Num(ahi, alo) < Num(bhi, blo))
            <==> !(ahi == bhi < 0 && (alo < W / 2) != (blo < W / 2))
  {
  }

  lemma SumOfWords(ahi: i64, alo: u64, bhi: i64, blo: u64)
    ensures var lo := U(alo + blo);
            var hi := S(ahi + bhi);
            Num(if lo < alo then S(hi + 1) else hi, lo) == Wrap(Num(ahi, alo) + Num(bhi, blo))
  {
    var c := if alo + blo >= W then 1 else 0;
    var lo := alo + blo - c * W;
    ModOf(alo + blo, lo, c, W);
    var k := SParts(ahi + bhi);
    SOfCongruent(ahi + bhi + c, S(ahi + bhi) + c, k);
    var j := SParts(ahi + bhi + c);
    WrapIs(Num(ahi, alo) + Num(bhi, blo), Num(S(ahi + bhi + c), lo), j);
    var i := SParts(S(ahi + bhi));
  }

  lemma NegatedWords(hi: i64, lo: u64)
    ensures (if lo == 0 then Num(S(-(hi as int)), 0) else Num(-1 - hi, U(-(lo as int)))) == Wrap(-Num(hi, lo))
  {
    if lo == 0 {
      var k := SParts(-(hi as int));
      WrapIs(-Num(hi, lo), Num(S(-(hi as int)), 0), k);
    } else {
      ModOf(-(lo as int), W - lo, -1, W);
      WrapIs(-Num(hi, lo), Num(-1 - hi, W - lo), 0);
    }
  }

  /** Bit n of the two's complement representation. */
  predicate BitOf(v: int, n: nat) {
    (v / Pow2(n)) % 2 == 1
  }

  /** Adding multiples of 2 * half * p does not change the parity of the quotient by p. */
  lemma QuotientParity(x: int, u: int, h: int, p: int, half: int)
    requires p > 0 && x == u + h * ((2 * half) * p)
    ensures (x / p) % 2 == (u / p) % 2
  {
    MulAssoc(h, 2 * half, p);
    DivMod(u, p);
    Distribute(u / p, h * (2 * half), p);
    ModOf(x, u % p, u / p + h * (2 * half), p);
    TwiceOf(h, half);
  }

  lemma Split64Even(n: nat)
    requires n < 64
    ensures (2 * Pow2(63 - n)) * Pow2(n) == W
  {
    Split64(n);
    MulComm(Pow2(n), Pow2(64 - n));
  }

  lemma LowBit(hi: i64, lo: u64, n: nat)
    requires n < 64
    ensures BitOf(Num(hi, lo), n) <==> (lo / Pow2(n)) % 2 == 1
  {
    hide Pow2;
    Split64Even(n);
    QuotientParity(Num(hi, lo), lo, hi, Pow2(n), Pow2(63 - n));
  }

  lemma TwiceOf(a: int, b: int)
    ensures a * (2 * b) == 2 * (a * b)
  {
  }

  lemma HighQuotient(hi: i64, lo: u64, n: nat)
    requires 64 <= n < 128
    ensures Num(hi, lo) / Pow2(n) == hi / Pow2(n - 64)
  {
    var p := Pow2(n - 64);
    Pow2Add(n - 64, 64);
    Pow2Of64();
    var a, b := hi / p, hi % p;
    DivMod(hi, p);
    LessEqTimes(b, p - 1, W);
    Distribute(p, 1, W);
    Distribute(a * p, b, W);
    MulAssoc(a, p, W);
    ModOf(Num(hi, lo), b * W + lo, a, p * W);
  }

  lemma SignedWordBit(hi: i64, n: nat)
    requires n < 64
    ensures (hi / Pow2(n)) % 2 == (U(hi) / Pow2(n)) % 2
  {
    hide Pow2;
    Split64Even(n);
    QuotientParity(hi, U(hi), hi / W, Pow2(n), Pow2(63 - n));
  }

  lemma HighBit(hi: i64, lo: u64, n: nat)
    requires 64 <= n < 128
    ensures BitOf(Num(hi, lo), n) <==> (U(hi) / Pow2(n - 64)) % 2 == 1
  {
    HighQuotient(hi, lo, n);
    SignedWordBit(hi, n - 64);
  }

  class Int128 {
    var lo: u64
    var hi: i64

    /** The number. */
    ghost function Value(): (v: int)
      reads this
      ensures InRange(v)
    {
      Num(hi, lo)
    }

    constructor Parts(lo: u64, hi: i64)
      ensures this.lo == lo && this.hi == hi
    {
      this.lo, this.hi := lo, hi;
    }

    constructor FromU32(a: int)
      requires 0 <= a < 0x1_0000_0000
      ensures Value() == a
    {
      lo, hi := a, 0;
    }

    constructor Copy(other: Int128)
      ensures lo == other.lo && hi == other.hi
    {
      lo, hi := other.lo, other.hi;
    }

    method Assign(other: Int128)
      modifies this
      ensures Value() == old(other.Value())
    {
      lo, hi := other.lo, other.hi;
    }

    /** operator! */
    predicate IsZero()
      reads this
      ensures IsZero() <==> Value() == 0
    {
      !(hi != 0 || lo != 0)
    }

    predicate Negative()
      reads this
      ensures Negative() <==> Value() < 0
    {
      LessWords(hi, lo, 0, 0)
    }

    method Neg() returns (r: Int128)
      ensures fresh(r) && r.Value() == Wrap(-Value())
    {
      NegatedWords(hi, lo);
      if lo == 0 {
        r := new Int128.Parts(0, S(-(hi as int)));
      } else {
        r := new Int128.Parts(U(-(lo as int)), -1 - hi);
      }
    }

    method AddAssign(b: Int128)
      modifies this
      ensures Value() == Wrap(old(Value()) + old(b.Value()))
    {
      SumOfWords(hi, lo, b.hi, b.lo);
      var oldLo := lo;
      var bhi := b.hi;
      lo := U(lo + b.lo);
      hi := S(hi + bhi);
      if lo < oldLo {
        hi := S(hi + 1);
      }
    }

    method SubAssign(b: Int128)
      modifies this
      ensures Value() == Wrap(old(Value()) - old(b.Value()))
    {
      var n := b.Neg();
      WrapMinus(Value(), b.Value());
      AddAssign(n);
    }

    method ShlAssign(n: nat)
      modifies this
      ensures Value() == Wrap(old(Value()) * Pow2(n))
    {
      if n >= 128 {
        BigShiftValue(Value(), n);
        lo, hi := 0, 0;
      } else if n >= 64 {
        ShlWordValue(hi, lo, n);
        UWithinS(lo * Pow2(n - 64));
        hi := S(Shl(lo, n - 64));
        lo := 0;
      } else if n != 0 {
        ShlValue(hi, lo, n);
        hi := ShlHi(hi, lo, n);
        lo := ShlLo(lo, n);
      } else {
        WrapIs(Value(), Value(), 0);
      }
    }

    method ShrAssign(n: nat)
      modifies this
      ensures Value() == old(Value()) / Pow2(n)
    {
      if n >= 128 {
        BigShiftValue(Value(), n);
        hi := if hi < 0 then -1 else 0;
        lo := U(hi);
      } else if n >= 64 {
        ShrWordValue(hi, lo, n);
        lo := U(hi / Pow2(n - 64));
        hi := if hi < 0 then -1 else 0;
      } else if n != 0 {
        ShrValue(hi, lo, n);
        ShrRange(hi, n);
        lo := ShrLo(hi, lo, n);
        hi := hi / Pow2(n);
      }
    }

    method Bit(n: nat) returns (b: bool)
      ensures b <==> BitOf(Value(), n)
    {
      if n >= 128 {
        BigShiftValue(Value(), n);
        b := hi < 0;
      } else if n < 64 {
        AndBit(lo, n);
        LowBit(hi, lo, n);
        b := And(lo, Pow2(n)) != 0;
      } else {
        AndBit(U(hi), n - 64);
        HighBit(hi, lo, n);
        b := And(U(hi), Pow2(n - 64)) != 0;
      }
    }

    /** Sets bit n; there is nothing beyond bit 127. */
    method SetBit(n: nat)
      modifies this
      ensures Value() == if n >= 128 || BitOf(old(Value()), n) then old(Value()) else Wrap(old(Value()) + Pow2(n))
    {
      if n < 64 {
        LowBit(hi, lo, n);
        LowBitSet(hi, lo, n);
        lo := Or(lo, Pow2(n));
      } else if n < 128 {
        HighBit(hi, lo, n);
        HighBitSet(hi, lo, n);
        hi := S(Or(U(hi), Pow2(n - 64)));
      }
    }

    /** Shift left by one and put `bit` into the place that becomes free. */
    method ShiftIn(bit: bool)
      requires 0 <= Value() && 2 * Value() + 1 < M / 2
      modifies this
      ensures Value() == 2 * old(Value()) + if bit then 1 else 0
    {
      PowOne();
      WrapIs(Value() * 2, Value() * 2, 0);
      ShlAssign(1);
      OddLow(hi, lo);
      if bit {
        OrBit(lo, 0);
        lo := Or(lo, 1);
      }
    }

    /** Shift-and-add over all 128 bits of `b`, which may be this object itself. */
    method MulAssign(b: Int128)
      modifies this
      ensures Value() == Wrap(old(Value()) * old(b.Value()))
    {
      if b.IsZero() {
        lo, hi := 0, 0;
        return;
      }
      if b.hi == 0 && b.lo == 1 {
        WrapIs(Value(), Value(), 0);
        return;
      }
      var a := new Int128.Copy(this);
      var t := new Int128.Copy(b);
      CopyValue(a, this);
      CopyValue(t, b);
      lo, hi := 0, 0;
      AddMultiples(a, t);
    }

    /** The loop of operator*=. */
    method AddMultiples(a: Int128, t: Int128)
      requires Value() == 0 && a != this && t != this && a != t
      modifies this, t
      ensures Value() == Wrap(a.Value() * old(t.Value()))
    {
      hide Pow2, Wrap, Int128.Value;
      ghost var y := t.Value();
      MulStart(a.Value(), y);
      var i := 0;
      while i < 128
        invariant 0 <= i <= 128 && t.Value() == y / Pow2(i)
        invariant Value() == Wrap(a.Value() * (y - t.Value() * Pow2(i)))
      {
        MulRound(a, t, i, y);
        i := i + 1;
      }
      MulDone(a.Value(), y);
    }

    /** One round: add the shifted multiplicand if the lowest bit of `t` is set. */
    method MulRound(a: Int128, t: Int128, i: nat, ghost y: int)
      requires a != this && t != this && a != t
      requires t.Value() == y / Pow2(i) && Value() == Wrap(a.Value() * (y - t.Value() * Pow2(i)))
      modifies this, t
      ensures t.Value() == y / Pow2(i + 1) && Value() == Wrap(a.Value() * (y - t.Value() * Pow2(i + 1)))
    {
      hide Pow2, Wrap, Num;
      MulStep(a.Value(), y, t.Value(), i);
      DivTwice(y, i);
      OddLow(t.hi, t.lo);
      PowOne();
      if t.lo % 2 == 1 {
        var s := new Int128.Copy(a);
        CopyValue(s, a);
        s.ShlAssign(i);
        AddAssign(s);
      }
      t.ShrAssign(1);
    }

    predicate LessThan(b: Int128)
      reads this, b
    {
      LessWords(hi, lo, b.hi, b.lo)
    }

    /** Feeds the leading bits of `dd` into the partial remainder until it reaches `ds`; the
        returned bit number is the place of the quotient's first digit. */
    static method LeadingBits(dd: Int128, ds: Int128, r: Int128) returns (b: nat)
      requires r != dd && r != ds && 0 < ds.Value() <= dd.Value() && r.Value() == 0
      modifies r
      ensures b < 128 && r.Value() == dd.Value() / Pow2(b) && ds.Value() <= r.Value() < 2 * ds.Value()
    {
      hide Pow2, Num;
      ghost var n, d := dd.Value(), ds.Value();
      b := 127;
      ghost var k := 0;
      NoBitsYet(n);
      while r.LessThan(ds)
        invariant 0 <= k <= 128 && b == if k == 128 then 0xFFFF_FFFF else 127 - k
        invariant r.Value() == n / Pow2(128 - k) && 0 <= r.Value() < 2 * d
        invariant k == 0 ==> r.Value() == 0
        decreases 128 - k
      {
        LessIsNumericFor(r, ds);
        AllBitsTaken(n);
        NextDigit(n, 127 - k);
        QuotientAtMost(n, Pow2(127 - k));
        var bit := dd.Bit(b);
        b := if b == 0 then 0xFFFF_FFFF else b - 1;
        r.ShiftIn(bit);
        k := k + 1;
      }
      LessIsNumericFor(r, ds);
      b := (b + 1) % 0x1_0000_0000;
    }

    /** Bring down the next bit of the dividend. */
    static method BringDown(dd: Int128, r: Int128, b: nat, ghost d: nat, ghost m: nat, ghost q: int)
      requires r != dd && 0 <= dd.Value() && Partial(dd.Value(), d, m, q, r.Value(), b + 1) && r.Value() < d
      modifies r
      ensures Partial(dd.Value(), d, 2 * m, q, r.Value(), b)
    {
      hide Pow2, Num, BitOf;
      Lower(dd.Value(), d, m, r.Value(), b);
      var bit := dd.Bit(b);
      r.ShiftIn(bit);
    }

    /** The divisor goes once into the partial remainder. */
    static method TakeOut(ds: Int128, q: Int128, r: Int128, b: nat, ghost n: nat, ghost m: nat)
      requires q != r && r != ds && q != ds && b < 128 && 0 < ds.Value() <= r.Value() && n < M / 2
      requires Partial(n, ds.Value(), m, q.Value(), r.Value(), b)
      modifies q, r
      ensures Partial(n, ds.Value(), m + 1, q.Value(), r.Value(), b) && r.Value() < ds.Value()
    {
      hide Pow2, Num, BitOf, Wrap;
      NewDigit(n, ds.Value(), m, r.Value(), b);
      r.SubAssign(ds);
      q.SetBit(b);
    }

    /** Restoring long division of non-negative numbers, from digit `first` down. */
    static method LongDivision(dd: Int128, ds: Int128, q: Int128, r: Int128, first: nat)
      requires q != r && q != dd && q != ds && r != dd && r != ds
      requires 0 < ds.Value() && 0 <= dd.Value() && q.Value() == 0 && first < 128
      requires r.Value() == dd.Value() / Pow2(first) && 0 <= r.Value() < 2 * ds.Value()
      modifies q, r
      ensures dd.Value() == q.Value() * ds.Value() + r.Value() && 0 <= r.Value() < ds.Value()
      ensures q.Value() >= 0
    {
      hide Pow2, Num, Int128.Value;
      ghost var n, d := dd.Value(), ds.Value();
      ghost var m: nat := 0;
      var b := first;
      while true
        invariant b < 128 && Partial(n, d, m, q.Value(), r.Value(), b)
        decreases b, r.Value()
      {
        LessIsNumericFor(r, ds);
        if r.LessThan(ds) {
          if b == 0 {
            break;
          }
          b := b - 1;
          BringDown(dd, r, b, d, m, q.Value());
          m := 2 * m;
        } else {
          TakeOut(ds, q, r, b, n, m);
          m := m + 1;
        }
      }
      AllDigits(n, d, m, q.Value(), r.Value());
    }

    /** |x|, by operator< and unary minus; the most negative number stays negative. */
    static method Magnitude(x: Int128) returns (r: Int128)
      ensures fresh(r) && r.Value() == if x.Value() == MIN then MIN else Abs(x.Value())
    {
      if x.Negative() {
        r := x.Neg();
        NegatedOnce(x.Value());
      } else {
        r := new Int128.Copy(x);
        CopyValue(r, x);
      }
    }

    /** Both loops of div. */
    static method DivideMagnitudes(dd: Int128, ds: Int128, q: Int128, r: Int128)
      requires q != r && q != dd && q != ds && r != dd && r != ds
      requires 0 < ds.Value() <= dd.Value() && q.Value() == 0 == r.Value()
      modifies q, r
      ensures dd.Value() == q.Value() * ds.Value() + r.Value() && 0 <= r.Value() < ds.Value()
      ensures q.Value() >= 0
    {
      hide Num, Int128.Value, Pow2;
      var b := LeadingBits(dd, ds, r);
      LongDivision(dd, ds, q, r, b);
    }

    /** Quotient and remainder. The remainder object may be this object or the divisor. For the
        most negative dividend the result is (0, dividend); see DivExactlyWhen. */
    method Div(divisor: Int128, remainder: Int128) returns (q: Int128)
      requires divisor.Value() != 0 && divisor.Value() != MIN
      modifies remainder
      ensures fresh(q)
      ensures DivResult(old(Value()), old(divisor.Value()), q.Value(), remainder.Value())
    {
      hide Num, Wrap, IsDivision, Int128.Value;
      ghost var n, d := Value(), divisor.Value();
      var dNeg, nNeg := divisor.Negative(), Negative();
      var ds := Magnitude(divisor);
      var dd := Magnitude(this);
      LessIsNumericFor(dd, ds);
      q := new Int128.FromU32(0);
      if dd.LessThan(ds) {
        SmallDividend(n, d);
        remainder.Assign(this);
        return;
      }
      var r := new Int128.FromU32(0);
      DivideMagnitudes(dd, ds, q, r);
      SignedResult(n, d, q.Value(), r.Value());
      if dNeg != nNeg {
        q := q.Neg();
      }
      if nNeg {
        r := r.Neg();
      }
      remainder.Assign(r);
    }

    method DivAssign(b: Int128)
      requires b.Value() != 0 && b.Value() != MIN
      modifies this
      ensures old(Value()) != MIN ==> IsDivision(old(Value()), old(b.Value()), Value(), Remainder(old(Value()), old(b.Value())))
      ensures old(Value()) == MIN ==> Value() == 0
    {
      hide Num, IsDivision, Remainder;
      var dummy := new Int128.FromU32(0);
      ghost var n, d := Value(), b.Value();
      var q := Div(b, dummy);
      RemainderIs(n, d, q.Value(), dummy.Value());
      Assign(q);
    }

    /** The remainder is written to this object while it is the dividend, and perhaps the
        divisor; the result is that of the old values. */
    method ModAssign(b: Int128)
      requires b.Value() != 0 && b.Value() != MIN
      modifies this
      ensures Value() == if old(Value()) == MIN then MIN else Remainder(old(Value()), old(b.Value()))
    {
      hide Num, IsDivision, Remainder;
      ghost var n, d := Value(), b.Value();
      var q := Div(b, this);
      RemainderIs(n, d, q.Value(), Value());
    }
  }

  ghost predicate DivResult(n: int, d: int, q: int, r: int) {
    if n == MIN then q == 0 && r == MIN else IsDivision(n, d, q, r)
  }

  /** Remainder of truncating division: the sign of the dividend, the size of |n| mod |d|. */
  function Remainder(n: int, d: int): int
    requires d != 0
  {
    if n < 0 then -(Abs(n) % Abs(d)) else Abs(n) % Abs(d)
  }

  lemma RemainderIs(n: int, d: int, q: int, r: int)
    requires d != 0 && DivResult(n, d, q, r)
    ensures n != MIN ==> r == Remainder(n, d)
  {
    if n != MIN {
      DivisionIsTruncation(n, d, q, r);
    }
  }

  /** Division is right for exactly the dividends other than the most negative number. */
  lemma DivExactlyWhen(n: int, d: int, q: int, r: int)
    requires InRange(n) && InRange(d) && d != 0 && d != MIN && DivResult(n, d, q, r)
    ensures IsDivision(n, d, q, r) <==> n != MIN
  {
  }

  /** operator< on the two words of a number. */
  predicate LessValue(a: int, b: int)
    requires InRange(a) && InRange(b)
  {
    HalvesFit(a);
    HalvesFit(b);
    LessWords(a / W, a % W, b / W, b % W)
  }

  lemma HalvesFit(v: int)
    requires InRange(v)
    ensures -W / 2 <= v / W < W / 2 && 0 <= v % W < W && Num(v / W, v % W) == v
  {
    DivMod(v, W);
  }

  /** The magnitudes as div computes them, and the partial remainder after some rounds in which it
      was not below the divisor. */
  function MagnitudeOf(v: int): int {
    if v < 0 then Wrap(-v) else v
  }

  function RemainderAfter(ds: int, rounds: nat): int {
    if rounds == 0 then 0 else Wrap(RemainderAfter(ds, rounds - 1) - ds)
  }

  lemma NotBelowMin(v: int)
    requires InRange(v) && (v >= 0 || v == MIN)
    ensures !LessValue(v, MIN)
  {
    assert MIN == (-W / 2) * W;
    ModOf(MIN, 0, -W / 2, W);
    HalvesFit(v);
  }

  /** With the most negative number as divisor, which is its own magnitude, div never ends, whatever
      the dividend: the dividend is not below the divisor, so the test for a mere remainder fails;
      the partial remainder starts as zero, which is not below it either, so the first loop is left
      at once; and after every number of rounds of the second loop it is zero or the divisor, never
      below the divisor, so that the branch with the way out is never taken. */
  lemma {:induction false} NoExitForMinDivisor(n: int, rounds: nat)
    requires InRange(n)
    ensures MagnitudeOf(MIN) == MIN && !LessValue(MagnitudeOf(n), MIN)
    ensures RemainderAfter(MIN, rounds) == (if rounds % 2 == 0 then 0 else MIN) && !LessValue(RemainderAfter(MIN, rounds), MIN)
  {
    WrapIs(-MIN, MIN, 1);
    NegatedOnce(n);
    NotBelowMin(MagnitudeOf(n));
    if rounds == 0 {
    } else {
      NoExitForMinDivisor(n, rounds - 1);
      WrapIs(0, 0, 0);
      WrapIs(0 - MIN, MIN, 1);
      assert MIN - MIN == 0;
    }
    NotBelowMin(RemainderAfter(MIN, rounds));
  }

  lemma NegatedOnce(x: int)
    requires InRange(x)
    ensures Wrap(-x) == if x == MIN then MIN else -x
  {
    if x == MIN {
      WrapIs(-x, MIN, 1);
    } else {
      WrapIs(-x, -x, 0);
    }
  }

  lemma SmallDividend(n: int, d: int)
    requires d != 0 && d != MIN && InRange(d) && InRange(n)
    requires n == MIN || Abs(n) < Abs(d)
    ensures DivResult(n, d, 0, n)
  {
  }

  lemma SignedResult(n: int, d: int, q: int, r: int)
    requires n != MIN && d != 0 && InRange(n) && InRange(d) && d != MIN && q >= 0
    requires Abs(n) == q * Abs(d) + r && 0 <= r < Abs(d)
    ensures DivResult(n, d, if (d < 0) != (n < 0) then -q else q, if n < 0 then -r else r)
    ensures Wrap(-q) == -q && Wrap(-r) == -r
  {
    LessEqTimes(1, Abs(d), q);
    MulComm(q, Abs(d));
    WrapIs(-q, -q, 0);
    WrapIs(-r, -r, 0);
    SignOfProduct(q, d);
  }

  /** The digits of n above b have been divided: quotient m, remainder r, and q is m placed. */
  ghost predicate Partial(n: int, d: int, m: nat, q: int, r: int, b: nat) {
    q == m * Pow2(b) && n / Pow2(b) == m * d + r && 0 <= r < 2 * d && (r >= d ==> m % 2 == 0)
  }

  lemma AllDigits(n: int, d: int, m: nat, q: int, r: int)
    requires Partial(n, d, m, q, r, 0)
    ensures n == q * d + r && q >= 0
  {
  }

  /** Going down one digit. */
  lemma Lower(n: nat, d: nat, m: nat, r: nat, b: nat)
    requires n / Pow2(b + 1) == m * d + r && n < M / 2
    ensures n / Pow2(b) == 2 * m * d + (2 * r + if BitOf(n, b) then 1 else 0)
    ensures m * Pow2(b + 1) == 2 * m * Pow2(b)
    ensures 2 * r + 1 < M / 2
  {
    NextDigit(n, b);
    QuotientAtMost(n, Pow2(b));
    MulAssoc(2, m, d);
    MulAssoc(m, 2, Pow2(b));
    LessEqTimes(0, m, d);
  }

  /** The partial remainder holds the divisor once: the digit is one. */
  lemma NewDigit(n: nat, d: nat, m: nat, r: nat, b: nat)
    requires n / Pow2(b) == m * d + r && d <= r < 2 * d && d > 0 && m % 2 == 0 && n < M / 2 && b < 128
    ensures Wrap(r - d) == r - d && m * d + r == (m + 1) * d + (r - d)
    ensures !BitOf(m * Pow2(b), b) && Wrap(m * Pow2(b) + Pow2(b)) == (m + 1) * Pow2(b)
  {
    Distribute(m, 1, d);
    Distribute(m, 1, Pow2(b));
    ModOf(m * Pow2(b), 0, m, Pow2(b));
    QuotientFits(n, d, m + 1, r - d, b);
    WrapIs(r - d, r - d, 0);
    WrapIs((m + 1) * Pow2(b), (m + 1) * Pow2(b), 0);
  }

  lemma QuotientFits(n: nat, d: nat, m: nat, r: nat, b: nat)
    requires n / Pow2(b) == m * d + r && d > 0
    ensures 0 <= m * Pow2(b) <= n && r <= n
  {
    QuotientAtMost(n, Pow2(b));
    LessEqTimes(1, d, m);
    MulComm(d, m);
    LessEqTimes(m, n / Pow2(b), Pow2(b));
    DivMod(n, Pow2(b));
  }

  lemma LessIsNumericFor(a: Int128, b: Int128)
    requires a.Value() >= 0 || b.Value() >= 0
    ensures a.LessThan(b) <==> a.Value() < b.Value()
  {
    LessIsNumericExactlyWhen(a.hi, a.lo, b.hi, b.lo);
  }

  lemma NoBitsYet(n: int)
    requires 0 <= n < M / 2
    ensures n / Pow2(128) == 0
  {
    Pow2Of64();
    ModOf(n, n, 0, M);
  }

  lemma AllBitsTaken(n: int)
    ensures n / Pow2(0) == n
  {
  }

  /** One more leading bit of n. */
  lemma NextDigit(n: int, b: nat)
    ensures n / Pow2(b) == 2 * (n / Pow2(b + 1)) + if BitOf(n, b) then 1 else 0
  {
    DivTwice(n, b);
  }

  lemma QuotientAtMost(n: nat, p: int)
    requires p > 0
    ensures 0 <= n / p <= n
  {
    DivNonNegative(n, p);
    DivMod(n, p);
    LessEqTimes(1, p, n / p);
    MulComm(n / p, p);
  }

  lemma PowOne()
    ensures Pow2(1) == 2 && Pow2(0) == 1
  {
  }

  lemma OddLow(hi: i64, lo: u64)
    ensures lo % 2 == Num(hi, lo) % 2
  {
    ModOf(Num(hi, lo), lo % 2, lo / 2 + hi * 0x8000_0000_0000_0000, 2);
  }

  lemma MulStart(x: int, y: int)
    ensures y == y / Pow2(0) && Wrap(x * (y - y * Pow2(0))) == 0
  {
  }

  lemma CopyValue(s: Int128, a: Int128)
    requires s.lo == a.lo && s.hi == a.hi
    ensures s.Value() == a.Value()
  {
  }

  lemma DivTwice(y: int, i: nat)
    ensures y / Pow2(i) / 2 == y / Pow2(i + 1)
  {
    var p := Pow2(i);
    var q := y / p;
    DivMod(y, p);
    TwiceOf(q / 2, p);
    Distribute(2 * (q / 2), q % 2, p);
    MulComm(p, 2);
    MulAssoc(q / 2, 2, p);
    var r := (q % 2) * p + y % p;
    assert 0 <= r < 2 * p by {
      if q % 2 == 1 {
        assert (q % 2) * p == p;
      } else {
        assert (q % 2) * p == 0;
      }
    }
    ModOf(y, r, q / 2, 2 * p);
  }

  /** One round keeps the sum right, whether or not the bit is set. */
  lemma MulStep(x: int, y: int, t: int, i: nat)
    ensures t % 2 == 1 ==>
              Wrap(Wrap(x * (y - t * Pow2(i))) + Wrap(x * Pow2(i))) == Wrap(x * (y - t / 2 * Pow2(i + 1)))
    ensures t % 2 == 0 ==> x * (y - t * Pow2(i)) == x * (y - t / 2 * Pow2(i + 1))
  {
    var p := Pow2(i);
    WrapAdd(x * (y - t * p), x * p);
    MulAssoc(t / 2, 2, p);
    if t % 2 == 1 {
      Distribute(t, 1, p);
      MulComm(x, y - t * p);
      MulComm(x, p);
      Distribute(y - t * p, p, x);
      MulComm(x, y - t * p + p);
      assert y - t * p + p == y - (t - 1) * p;
    }
  }

  lemma MulDone(x: int, y: int)
    requires InRange(y)
    ensures Wrap(x * (y - y / Pow2(128) * Pow2(128))) == Wrap(x * y)
  {
    Pow2Of64();
    var t := y / M;
    if y < 0 {
      ModOf(y, y + M, -1, M);
    } else {
      ModOf(y, y, 0, M);
    }
    MulComm(x, y - t * M);
    Distribute(y, t * M, x);
    MulComm(t * M, x);
    MulAssoc(x, t, M);
    MulComm(x, y);
    WrapPeriod(x * y, -(x * t));
    assert x * y + (-(x * t)) * M == x * y - (x * t) * M;
  }

  lemma LowBitSet(hi: i64, lo: u64, n: nat)
    requires n < 64
    ensures 0 <= Or(lo, Pow2(n)) < W
    ensures Num(hi, Or(lo, Pow2(n))) == if (lo / Pow2(n)) % 2 == 1 then Num(hi, lo) else Wrap(Num(hi, lo) + Pow2(n))
  {
    if (lo / Pow2(n)) % 2 == 1 {
      OrBitSet(lo, n);
    } else {
      OrBit(lo, n);
      RoomForBit(lo, n);
      WrapIs(Num(hi, lo) + Pow2(n), Num(hi, lo) + Pow2(n), 0);
    }
  }

  lemma RoomInQuotient(x: int, p: int, half: int)
    requires p > 0 && 0 <= x < (2 * half) * p && (x / p) % 2 == 0
    ensures x + p < (2 * half) * p
  {
    DivMod(x, p);
    var a := x / p;
    if a >= 2 * half {
      LessEqTimes(2 * half, a, p);
    }
    LessEqTimes(a + 2, 2 * half, p);
    Distribute(a, 2, p);
  }

  /** A word with bit n clear has room for it. */
  lemma RoomForBit(x: u64, n: nat)
    requires n < 64 && (x / Pow2(n)) % 2 == 0
    ensures x + Pow2(n) < W
  {
    hide Pow2;
    Split64Even(n);
    RoomInQuotient(x, Pow2(n), Pow2(63 - n));
  }

  lemma AddToHighWord(hi: i64, lo: u64, p: int)
    ensures Num(S(hi + p), lo) == Wrap(Num(hi, lo) + p * W)
  {
    var k := SParts(hi + p);
    Distribute(S(hi + p), k * W, W);
    MulAssoc(k, W, W);
    Distribute(hi, p, W);
    WrapIs(Num(hi, lo) + p * W, Num(S(hi + p), lo), k);
  }

  lemma SignedSum(hi: i64, p: int)
    ensures S(U(hi) + p) == S(hi + p) && S(U(hi)) == hi
  {
    SOfCongruent(hi + p, U(hi) + p, hi / W);
    UWithinS(hi);
  }

  lemma HighBitSet(hi: i64, lo: u64, n: nat)
    requires 64 <= n < 128
    ensures Num(S(Or(U(hi), Pow2(n - 64))), lo) ==
              if (U(hi) / Pow2(n - 64)) % 2 == 1 then Num(hi, lo) else Wrap(Num(hi, lo) + Pow2(n))
  {
    hide *;
    var p := Pow2(n - 64);
    SignedSum(hi, p);
    if (U(hi) / p) % 2 == 1 {
      OrBitSet(U(hi), n - 64);
    } else {
      OrBit(U(hi), n - 64);
      Pow2Add(n - 64, 64);
      Pow2Of64();
      AddToHighWord(hi, lo, p);
    }
  }

  lemma WrapMinus(x: int, y: int)
    ensures Wrap(x + Wrap(-y)) == Wrap(x - y)
  {
    var k := WrapParts(-y);
    WrapPeriod(x + Wrap(-y), k);
  }

  lemma ShrRange(hi: i64, n: nat)
    ensures -W / 2 <= hi / Pow2(n) < W / 2
  {
    DivMod(hi, Pow2(n));
    QuotientRange(hi, hi / Pow2(n), hi % Pow2(n), Pow2(n));
  }

  // ---------------------------------------------------------------------------------
  // Division

  function Abs(x: int): nat {
    if x < 0 then -x else x
  }

  /** Quotient and remainder of truncating division. */
  predicate IsDivision(n: int, d: int, q: int, r: int) {
    n == q * d + r && Abs(r) < Abs(d) && (r == 0 || (r < 0 <==> n < 0))
  }

  /** There is only one such pair, and its quotient is rounded toward zero. */
  lemma DivisionIsTruncation(n: int, d: int, q: int, r: int)
    requires d != 0 && IsDivision(n, d, q, r)
    ensures Abs(q) == Abs(n) / Abs(d) && Abs(r) == Abs(n) % Abs(d)
    ensures q == 0 || (q < 0 <==> (n < 0) != (d < 0))
  {
    var m := Abs(d);
    SignOfProduct(q, d);
    assert Abs(n) == Abs(q) * m + Abs(r) by {
      if q * d != 0 && r != 0 && (q * d < 0) != (r < 0) {
        AtLeastOnce(Abs(q), m);
        assert false;
      }
    }
    ModOf(Abs(n), Abs(r), Abs(q), m);
  }

  lemma SignOfProduct(a: int, b: int)
    ensures Abs(a * b) == Abs(a) * Abs(b)
    ensures a == 0 || b == 0 || (a * b < 0 <==> (a < 0) != (b < 0))
    ensures a * b == 0 <==> a == 0 || b == 0
  {
  }
}
