/** Printing and reading Int128 numbers, and when reading gives back what was printed. */
module Int128Text {
  import opened Basics
  import opened Words
  import opened Shifts
  import opened Int128Arithmetic

  function DigitChar(c: nat): char
    requires c < 37
  {
    if c > 9 then ('A' as int + c - 10) as char else ('0' as int + c) as char
  }

  function Digits(n: nat, radix: nat): string
    requires 2 <= radix <= 37
  {
    if n == 0 then "" else SmallerQuotient(n, radix); Digits(n / radix, radix) + [DigitChar(n % radix)]
  }

  lemma SmallerQuotient(n: nat, radix: nat)
    requires n > 0 && radix >= 2
    ensures 0 <= n / radix < n && 2 * (n / radix) <= n && 0 <= n % radix < radix
  {
    var q := n / radix;
    DivNonNegative(n, radix);
    DivMod(n, radix);
    LessEqTimes(2, radix, q);
    MulComm(q, radix);
  }

  /** What toString returns. */
  function Printed(v: int, radix: nat): string {
    if v == 0 then "0"
    else if radix < 2 || radix > 37 then "(invalid radix)"
    else if v == MIN then "-0"
    else (if v < 0 then "-" else "") + Digits(Abs(v), radix)
  }

  lemma HalvesFit(n: nat, k: nat, radix: nat)
    requires radix >= 2 && 0 < n < Pow2(k)
    ensures k > 0 && n / radix < Pow2(k - 1)
  {
    SmallerQuotient(n, radix);
  }

  /** Characters `sz[i..255]` are the digits of n that have been split off so far. */
  ghost predicate Filled(n: int, radix: nat, rest: int, i: int, tail: string)
    requires 2 <= radix <= 37
  {
    if n == MIN then
      if rest == 0 then i == 254 && tail == "0" else i == 255 && rest == MIN && tail == ""
    else
      128 <= i <= 255 && 0 <= rest < Pow2(i - 128) && n >= 0 && Digits(n, radix) == Digits(rest, radix) + tail
  }

  lemma OneMoreDigit(n: int, radix: nat, rest: int, i: int, tail: string, q: int, c: nat)
    requires 2 <= radix <= 37 && Filled(n, radix, rest, i, tail) && rest != 0 && c < 37
    requires if rest == MIN then q == 0 && c == 0 else q == rest / radix && c == rest % radix
    ensures Filled(n, radix, q, i - 1, [DigitChar(c)] + tail) && i > 0
  {
    if n != MIN {
      HalvesFit(rest, i - 128, radix);
      SmallerQuotient(rest, radix);
      assert Digits(q, radix) + [DigitChar(c)] + tail == Digits(q, radix) + ([DigitChar(c)] + tail);
    }
  }

  /** The loop of toString: writes digits from the end of the buffer towards its start. */
  method FillDigits(n: Int128, radix: nat, sz: array<char>) returns (i: nat)
    requires 2 <= radix <= 37 && sz.Length == 256 && (n.Value() == MIN || n.Value() >= 0)
    modifies sz
    ensures 0 < i <= 255 && Filled(n.Value(), radix, 0, i, sz[i..255])
  {
    hide Num, Int128.Value, Filled, Digits, Pow2;
    var ii := new Int128.Copy(n);
    CopyValue(ii, n);
    var r := new Int128.FromU32(0);
    var aux := new Int128.FromU32(radix);
    i := 255;
    FillStart(n.Value(), radix);
    assert sz[255..255] == "";
    while !ii.IsZero() && i != 0
      invariant 0 < i <= 255 && aux.Value() == radix
      invariant Filled(n.Value(), radix, ii.Value(), i, sz[i..255])
      decreases i
    {
      ghost var rest := ii.Value();
      FillRange(n.Value(), radix, rest, i, sz[i..255]);
      ii := ii.Div(aux, r);
      ToIntOfRemainder(rest, radix, ii.Value(), r);
      var c := r.lo % 0x1_0000_0000;
      OneMoreDigit(n.Value(), radix, rest, i, sz[i..255], ii.Value(), c);
      FillRange(n.Value(), radix, ii.Value(), i - 1, [DigitChar(c)] + sz[i..255]);
      ghost var tail := sz[i..255];
      i := i - 1;
      sz[i] := DigitChar(c);
      assert sz[i..255] == [DigitChar(c)] + tail;
    }
  }

  lemma FillStart(n: int, radix: nat)
    requires InRange(n) && 2 <= radix <= 37 && (n == MIN || n >= 0)
    ensures Filled(n, radix, n, 255, "")
  {
    Pow2Of64();
    if n != MIN {
      assert Digits(n, radix) + "" == Digits(n, radix);
    }
  }

  lemma FillRange(n: int, radix: nat, rest: int, i: int, tail: string)
    requires 2 <= radix <= 37 && Filled(n, radix, rest, i, tail)
    ensures i > 0 && (rest == MIN || rest >= 0)
  {
  }

  /** Fills a buffer of 256 characters from its end. */
  method ToString(x: Int128, radix: nat) returns (s: string)
    requires radix < 0x1_0000_0000
    ensures x.Value() == 0 ==> s == "0"
    ensures x.Value() != 0 && !(2 <= radix <= 37) ==> s == "(invalid radix)"
    ensures s == Printed(x.Value(), radix)
  {
    hide Num, Pow2;
    if x.IsZero() {
      return "0";
    }
    if radix < 2 || radix > 37 {
      return "(invalid radix)";
    }
    var sz := new char[256](_ => '\0');
    var ii := Int128.Magnitude(x);
    var i := FillDigits(ii, radix, sz);
    ghost var tail := sz[i..255];
    if x.Negative() {
      i := i - 1;
      sz[i] := '-';
      assert sz[i..255] == ['-'] + tail;
    }
    s := sz[i..255];
  }

  /** The low half of the low word is the digit. */
  lemma ToIntOfRemainder(n: int, radix: nat, q: int, r: Int128)
    requires 2 <= radix <= 37 && (n == MIN || n >= 0) && DivResult(n, radix, q, r.Value())
    ensures n == MIN ==> q == 0 && r.lo % 0x1_0000_0000 == 0
    ensures n != MIN ==> q == n / radix && r.lo % 0x1_0000_0000 == n % radix
  {
    if n != MIN {
      DivisionIsTruncation(n, radix, q, r.Value());
    }
  }

  // ---------------------------------------------------------------------------------
  // Reading

  /** The value of a digit as the reader sees it; for letters the upper limit is one too high. */
  function DigitValue(ch: char, radix: nat): Option<nat>
    requires 8 <= radix <= 16
  {
    var c := ch as int;
    if '0' as int <= c <= '9' as int && c < '0' as int + radix then Some(c - '0' as int)
    else if 'a' as int <= c <= 'a' as int + radix - 10 then Some(c - 'a' as int + 10)
    else if 'A' as int <= c <= 'A' as int + radix - 10 then Some(c - 'A' as int + 10)
    else None
  }

  /** Reads digits up to the first character that is none. */
  function Accumulate(acc: int, s: string, radix: nat): int
    requires 8 <= radix <= 16
    decreases |s|
  {
    if s == "" then acc
    else match DigitValue(s[0], radix)
      case None => acc
      case Some(n) => Accumulate(Wrap(Wrap(acc * radix) + n), s[1..], radix)
  }

  /** Sign, radix and digits of a text. */
  function Heading(s: string): (bool, nat, string) {
    var minus := s != "" && s[0] == '-';
    var t := if minus then s[1..] else s;
    if t != "" && t[0] == '0' then
      if |t| > 1 && t[1] == 'x' then (minus, 16, t[2..]) else (minus, 8, t[1..])
    else (minus, 10, t)
  }

  /** What set makes of a text. */
  function Parsed(s: string): int {
    var (minus, radix, digits) := Heading(s);
    var v := Accumulate(0, digits, radix);
    if minus then Wrap(0 - v) else v
  }

  /** The character at position i, or the end mark. */
  function At(s: string, i: nat): char {
    if i < |s| then s[i] else '\0'
  }

  method Set(x: Int128, s: string)
    modifies x
    ensures x.Value() == Parsed(s)
  {
    hide Num, Wrap;
    x.lo, x.hi := 0, 0;
    ZeroWords(x);
    if At(s, 0) == '\0' {
      ReadNothing(s);
      return;
    }
    var radix, i, minus := 10, 0, false;
    if At(s, i) == '-' {
      i, minus := i + 1, true;
    }
    if At(s, i) == '0' {
      radix, i := 8, i + 1;
      if At(s, i) == 'x' {
        radix, i := 16, i + 1;
      }
    }
    assert Heading(s) == (minus, radix, s[i..]) by {
      HeadingAt(s, minus, radix, i);
    }
    ReadDigits(x, s, i, radix);
    if minus {
      var zero := new Int128.FromU32(0);
      zero.SubAssign(x);
      x.Assign(zero);
    }
  }

  lemma ZeroWords(x: Int128)
    requires x.lo == 0 && x.hi == 0
    ensures x.Value() == 0
  {
  }

  lemma ReadNothing(s: string)
    requires s == "" || s[0] == '\0'
    ensures Parsed(s) == 0
  {
  }

  lemma HeadingAt(s: string, minus: bool, radix: nat, i: nat)
    requires s != "" && minus == (s[0] == '-')
    requires var j := if minus then 1 else 0;
             if At(s, j) == '0' then
               if At(s, j + 1) == 'x' then radix == 16 && i == j + 2 else radix == 8 && i == j + 1
             else radix == 10 && i == j
    ensures i <= |s| && Heading(s) == (minus, radix, s[i..])
  {
  }

  /** The loop of set. */
  method ReadDigits(x: Int128, s: string, from: nat, radix: nat)
    requires from <= |s| && 8 <= radix <= 16
    modifies x
    ensures x.Value() == Accumulate(old(x.Value()), s[from..], radix)
  {
    hide Num, Wrap;
    var i := from;
    while i < |s|
      invariant from <= i <= |s|
      invariant Accumulate(x.Value(), s[i..], radix) == Accumulate(old(x.Value()), s[from..], radix)
    {
      var n := 0;
      var c := s[i] as int;
      if '0' as int <= c <= '9' as int && c < '0' as int + radix {
        n := c - '0' as int;
      } else if 'a' as int <= c <= 'a' as int + radix - 10 {
        n := c - 'a' as int + 10;
      } else if 'A' as int <= c <= 'A' as int + radix - 10 {
        n := c - 'A' as int + 10;
      } else {
        return;
      }
      assert s[i..][1..] == s[i + 1..];
      var r := new Int128.FromU32(radix);
      var d := new Int128.FromU32(n);
      x.MulAssign(r);
      x.AddAssign(d);
      i := i + 1;
    }
  }

  // ---------------------------------------------------------------------------------
  // Round trips

  /** Only digits of the given radix. */
  ghost predicate AllDigits(s: string, radix: nat)
    requires 8 <= radix <= 16
  {
    forall i :: 0 <= i < |s| ==> DigitValue(s[i], radix).Some?
  }

  lemma DigitReadsBack(c: nat, radix: nat)
    requires c < radix && (radix == 8 || radix == 10 || radix == 16)
    ensures DigitValue(DigitChar(c), radix) == Some(c) && DigitChar(c) != '-' && DigitChar(c) != 'x'
    ensures DigitChar(c) == '0' <==> c == 0
  {
  }

  lemma {:induction false} AccumulateLast(acc: int, s: string, c: char, radix: nat)
    requires 8 <= radix <= 16 && AllDigits(s, radix) && DigitValue(c, radix).Some?
    ensures Accumulate(acc, s + [c], radix) ==
              Wrap(Wrap(Accumulate(acc, s, radix) * radix) + DigitValue(c, radix).value)
    decreases |s|
  {
    hide Wrap;
    if s == "" {
      assert (s + [c])[1..] == "";
    } else {
      assert (s + [c])[1..] == s[1..] + [c];
      AccumulateLast(Wrap(Wrap(acc * radix) + DigitValue(s[0], radix).value), s[1..], c, radix);
    }
  }

  /** The digits of a number are read back as the number, and begin with a non-zero digit. */
  lemma {:induction false} DigitsReadBack(n: nat, radix: nat)
    requires (radix == 8 || radix == 10 || radix == 16) && n < M / 2
    ensures AllDigits(Digits(n, radix), radix) && Accumulate(0, Digits(n, radix), radix) == n
    ensures n > 0 ==> Digits(n, radix) != "" && Digits(n, radix)[0] !in {'0', '-'}
    ensures forall c <- Digits(n, radix) :: c != 'x'
    decreases n
  {
    hide Wrap;
    if n > 0 {
      SmallerQuotient(n, radix);
      var q, c := n / radix, n % radix;
      DigitsReadBack(q, radix);
      DigitReadsBack(c, radix);
      AccumulateLast(0, Digits(q, radix), DigitChar(c), radix);
      DivMod(n, radix);
      WrapIs(q * radix, q * radix, 0);
      WrapIs(q * radix + c, n, 0);
      if q == 0 {
        assert Digits(q, radix) == "";
        assert c == n;
      }
    }
  }

  /** Decimal: what toString prints is read back, except exactly for the most negative number,
      which prints as "-0". */
  lemma DecimalRoundTrip(v: int)
    requires InRange(v)
    ensures Parsed(Printed(v, 10)) == v <==> v != MIN
  {
    hide Wrap, Digits, Accumulate;
    if v == MIN {
      MinReadsZero();
    } else if v == 0 {
      ZeroReadsZero();
    } else {
      var ds := Digits(Abs(v), 10);
      DigitsReadBack(Abs(v), 10);
      WrapIs(v, v, 0);
      if v < 0 {
        assert ("-" + ds)[1..] == ds;
      } else {
        assert "" + ds == ds;
      }
    }
  }

  lemma MinReadsZero()
    ensures Parsed(Printed(MIN, 10)) == 0
  {
    WrapIs(0, 0, 0);
  }

  lemma ZeroReadsZero()
    ensures Parsed("0") == 0
  {
  }

  /** Hexadecimal and octal, with the prefix the reader wants: exactly the non-negative numbers. */
  lemma PrefixedRoundTrip(v: int)
    requires InRange(v)
    ensures Parsed("0x" + Printed(v, 16)) == v <==> v >= 0
    ensures Parsed("0" + Printed(v, 8)) == v <==> v >= 0
  {
    hide Wrap, Digits;
    PrefixedReads(Printed(v, 16), 16);
    PrefixedReads(Printed(v, 8), 8);
    if v > 0 {
      DigitsReadBack(v, 16);
      DigitsReadBack(v, 8);
      assert "" + Digits(v, 16) == Digits(v, 16) && "" + Digits(v, 8) == Digits(v, 8);
      assert Digits(v, 8)[0] in Digits(v, 8);
    } else if v == 0 {
      ZeroAccumulates();
    }
  }

  lemma ZeroAccumulates()
    ensures Accumulate(0, "0", 16) == 0 && Accumulate(0, "0", 8) == 0
  {
    WrapIs(0, 0, 0);
  }

  lemma PrefixedReads(t: string, radix: nat)
    ensures radix == 16 ==> Parsed("0x" + t) == Accumulate(0, t, 16)
    ensures radix == 8 && t != "" && t[0] != 'x' ==> Parsed("0" + t) == Accumulate(0, t, 8)
  {
    assert ("0x" + t)[2..] == t && ("0" + t)[1..] == t;
  }

  // ---------------------------------------------------------------------------------
  // Digits that are none

  /** The digit a character stands for in a radix large enough. */
  function Face(ch: char): Option<nat> {
    if '0' <= ch <= '9' then Some(ch as int - '0' as int)
    else if 'a' <= ch <= 'z' then Some(ch as int - 'a' as int + 10)
    else if 'A' <= ch <= 'Z' then Some(ch as int - 'A' as int + 10)
    else None
  }

  /** The letters for ten in decimal and for sixteen in hexadecimal. */
  predicate Foreign(ch: char, radix: nat) {
    (radix == 10 && ch in {'a', 'A'}) || (radix == 16 && ch in {'g', 'G'})
  }

  /** A character is read as a digit exactly if it is a digit of the radix or one of these, and
      always as what it stands for. */
  lemma ReadAsDigitExactlyWhen(ch: char, radix: nat)
    requires radix == 8 || radix == 10 || radix == 16
    ensures DigitValue(ch, radix).Some? <==> (Face(ch).Some? && Face(ch).value < radix) || Foreign(ch, radix)
    ensures DigitValue(ch, radix).Some? ==> DigitValue(ch, radix) == Face(ch)
    ensures Foreign(ch, radix) ==> Face(ch) == Some(radix)
  {
  }

  lemma WrapProduct(x: int, k: int)
    ensures Wrap(Wrap(x) * k) == Wrap(x * k)
  {
    var i := WrapParts(x);
    WrapPeriod(Wrap(x) * k, i * k);
    assert x * k == Wrap(x) * k + (i * k) * M;
  }

  lemma WrapLast(x: int, n: int)
    ensures Wrap(Wrap(x) + n) == Wrap(x + n)
  {
    var i := WrapParts(x);
    WrapPeriod(Wrap(x) + n, i);
  }

  /** The number that digits stand for, whatever their number and values. */
  function Number(acc: int, s: string, radix: nat): int
    requires 8 <= radix <= 16
    decreases |s|
  {
    if s == "" || DigitValue(s[0], radix) == None then acc
    else Number(acc * radix + DigitValue(s[0], radix).value, s[1..], radix)
  }

  /** What the loop accumulates is the number written, modulo 2^128. */
  lemma {:induction false} AccumulatesNumber(acc: int, s: string, radix: nat)
    requires 8 <= radix <= 16
    ensures Accumulate(Wrap(acc), s, radix) == Wrap(Number(acc, s, radix))
    decreases |s|
  {
    hide Wrap;
    if s != "" && DigitValue(s[0], radix).Some? {
      var n := DigitValue(s[0], radix).value;
      WrapProduct(acc, radix);
      WrapLast(acc * radix, n);
      AccumulatesNumber(acc * radix + n, s[1..], radix);
    }
  }

  lemma {:induction false} NumberLast(acc: int, s: string, ch: char, radix: nat)
    requires 8 <= radix <= 16 && AllDigits(s, radix) && DigitValue(ch, radix).Some?
    ensures Number(acc, s + [ch], radix) == Number(acc, s, radix) * radix + DigitValue(ch, radix).value
    decreases |s|
  {
    if s == "" {
      assert (s + [ch])[1..] == "";
    } else {
      assert (s + [ch])[1..] == s[1..] + [ch];
      NumberLast(acc * radix + DigitValue(s[0], radix).value, s[1..], ch, radix);
    }
  }

  /** What set makes of digits that end in such a letter: it carries, so that the text stands for
      one more than the digits before it, and then a zero. */
  lemma ForeignDigitCarries(s: string, ch: char, radix: nat)
    requires (radix == 10 || radix == 16) && AllDigits(s, radix) && Foreign(ch, radix)
    requires radix == 10 && s != "" ==> s[0] !in {'0', '-'}
    ensures Parsed((if radix == 16 then "0x" else "") + s + [ch]) == Wrap((Number(0, s, radix) + 1) * radix)
  {
    ReadAsDigitExactlyWhen(ch, radix);
    NumberLast(0, s, ch, radix);
    WrapIs(0, 0, 0);
    AccumulatesNumber(0, s + [ch], radix);
    hide Wrap, Accumulate, Number, AllDigits;
    if radix == 16 {
      assert "0x" + s + [ch] == "0x" + (s + [ch]);
      PrefixedReads(s + [ch], 16);
    } else {
      assert "" + s + [ch] == s + [ch];
    }
  }

  // ---------------------------------------------------------------------------------
  // What printing and reading come to in general

  /** What set makes of any text: after "0x" the hexadecimal number, after another "0" the octal one,
      otherwise the decimal one, each up to the first character that is no digit and modulo 2^128;
      a minus sign in front of all that negates. */
  lemma ParsedIsNumber(t: string)
    ensures Parsed("0x" + t) == Wrap(Number(0, t, 16))
    ensures t == "" || t[0] != 'x' ==> Parsed("0" + t) == Wrap(Number(0, t, 8))
    ensures t == "" || t[0] !in {'0', '-'} ==> Parsed(t) == Wrap(Number(0, t, 10))
    ensures t == "" || t[0] != '-' ==> Parsed("-" + t) == Wrap(-Parsed(t))
  {
    hide Wrap, Accumulate, Number, Parsed;
    ReadsAs("0x" + t, 16, t);
    if t == "" || t[0] != 'x' {
      ReadsAs("0" + t, 8, t);
    }
    if t == "" || t[0] !in {'0', '-'} {
      ReadsAs(t, 10, t);
    }
    if t == "" || t[0] != '-' {
      MinusNegates(t);
    }
  }

  lemma ReadsAs(s: string, radix: nat, digits: string)
    requires radix in {8, 10, 16} && Headed(s, radix, digits)
    ensures Parsed(s) == Wrap(Number(0, digits, radix))
  {
    WrapIs(0, 0, 0);
    AccumulatesNumber(0, digits, radix);
    hide Wrap, Accumulate, Number;
  }

  /** The prefix tells the radix. */
  predicate Headed(s: string, radix: nat, digits: string) {
    (radix == 16 && s == "0x" + digits) || (radix == 8 && s == "0" + digits && (digits == "" || digits[0] != 'x'))
    || (radix == 10 && s == digits && (digits == "" || digits[0] !in {'0', '-'}))
  }

  lemma MinusNegates(t: string)
    requires t == "" || t[0] != '-'
    ensures Parsed("-" + t) == Wrap(-Parsed(t))
  {
    hide Wrap, Accumulate;
    assert ("-" + t)[1..] == t;
  }

  /** The number that digits denote by their faces, in any radix. */
  function Denoted(s: string, radix: nat): int {
    if s == "" then 0
    else Denoted(s[..|s| - 1], radix) * radix + (match Face(s[|s| - 1]) case Some(n) => n case None => 0)
  }

  /** Digits denote their number, begin with no zero, and are all below the radix. */
  lemma {:induction false} DigitsDenote(n: nat, radix: nat)
    requires 2 <= radix <= 36
    ensures Denoted(Digits(n, radix), radix) == n && (n > 0 ==> Digits(n, radix) != "" && Digits(n, radix)[0] != '0')
    ensures forall c <- Digits(n, radix) :: Face(c).Some? && Face(c).value < radix
    decreases n
  {
    if n > 0 {
      SmallerQuotient(n, radix);
      DigitsDenote(n / radix, radix);
      DivMod(n, radix);
      var front, c := Digits(n / radix, radix), n % radix;
      assert Digits(n, radix) == front + [DigitChar(c)] && (front + [DigitChar(c)])[..|front|] == front;
      assert Face(DigitChar(c)) == Some(c) && (DigitChar(c) == '0' <==> c == 0);
      MulComm(n / radix, radix);
      if n / radix == 0 {
        assert front == "" && c == n;
      }
    }
  }

  /** What toString prints in any radix up to 36: "0", or digits of the radix that denote the
      magnitude, behind a sign if the number is negative, except exactly for the most negative one. */
  lemma PrintedDenotes(v: int, radix: nat)
    requires InRange(v) && 2 <= radix <= 36 && v != 0 && v != MIN
    ensures var ds := if v < 0 then Printed(v, radix)[1..] else Printed(v, radix);
            && (v < 0 ==> Printed(v, radix) != "" && Printed(v, radix)[0] == '-') && ds != "" && ds[0] != '0'
            && Denoted(ds, radix) == Abs(v) && forall c <- ds :: Face(c).Some? && Face(c).value < radix
  {
    var ds := Digits(Abs(v), radix);
    DigitsDenote(Abs(v), radix);
    assert ("-" + ds)[1..] == ds && "" + ds == ds;
    hide Digits, Denoted;
  }
}
