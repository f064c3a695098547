/** From pattern text to elements. */
module PatternSyntax {
  import opened Basics
  import opened PatternMeaning

  /** An unclosed set is an error; a trailing backslash makes the source read past the end. */
  datatype Parsed = Elements(es: seq<Elem>) | Unmatched | PastEnd

  datatype Range = Range(lo: int, up: int, end: nat)

  /** One token and where it ends. */
  datatype Token = Token(e: Elem, end: nat) | NoClosing | NoChar

  function Bound(p: string, from: nat, to: nat): int
    requires from <= to <= |p| && AllDigits(p[from..to])
  {
    if from < to then Atol(p[from..to]) else -1
  }

  /** "n..m" after an opening character at i, up to the closing one. */
  function NumRangeAt(p: string, i: nat, closing: char): (r: Option<Range>)
    requires i < |p|
    ensures r.Some? ==> i + 3 <= r.value.end < |p| && p[r.value.end] == closing
  {
    var a := DigitsEnd(p, i + 1);
    if !(a + 1 < |p| && p[a] == '.' && p[a + 1] == '.') then None
    else
      var b := DigitsEnd(p, a + 2);
      if b < |p| && p[b] == closing then Some(Range(Bound(p, i + 1, a), Bound(p, a + 2, b), b)) else None
  }

  /** Text read before the rest, and where the rest ends. */
  function Before(text: string, rest: Option<(string, nat)>): Option<(string, nat)> {
    match rest
    case None => None
    case Some(more) => Some((text + more.0, more.1))
  }

  lemma BeforeNothing(rest: Option<(string, nat)>)
    ensures Before("", rest) == rest
  {
    if rest.Some? {
      assert "" + rest.value.0 == rest.value.0;
    }
  }

  lemma BeforeBefore(a: string, b: string, rest: Option<(string, nat)>)
    ensures Before(a, Before(b, rest)) == Before(a + b, rest)
  {
    if rest.Some? {
      assert a + (b + rest.value.0) == (a + b) + rest.value.0;
    }
  }

  /** A literal ends before a wildcard, or with the bracket that opens a numeric range, which is
      then read again as the range. */
  function LiteralAt(p: string, i: nat): (r: Option<(string, nat)>)
    requires i <= |p|
    ensures r.Some? ==> i <= r.value.1 <= |p|
    ensures r.Some? && r.value.1 == i && i < |p| && p[i] !in "?{*" ==> p[i] == '[' && NumRangeAt(p, i, ']').Some?
    decreases |p| - i
  {
    if i == |p| || p[i] in "?{*" then Some(("", i))
    else
      var j := if p[i] == '\\' then i + 1 else i;
      if j == |p| then None
      else if p[j] == '[' && NumRangeAt(p, j, ']').Some? then Some(([p[j]], j))
      else Before([p[j]], LiteralAt(p, j + 1))
  }

  lemma LiteralStep(p: string, i: nat, at: nat)
    requires i <= at < |p| && p[i] !in "?{*" && at == (if p[i] == '\\' then i + 1 else i)
    ensures LiteralAt(p, i) == if p[at] == '[' && NumRangeAt(p, at, ']').Some? then Some(([p[at]], at))
                               else Before([p[at]], LiteralAt(p, at + 1))
  {
    hide NumRangeAt;
  }

  lemma LiteralEnds(p: string, i: nat)
    requires i <= |p|
    ensures i == |p| || p[i] in "?{*" ==> LiteralAt(p, i) == Some(("", i))
    ensures i + 1 == |p| && p[i] == '\\' ==> LiteralAt(p, i) == None
  {
  }

  function SetAt(p: string, i: nat, start: nat): (r: Option<(string, nat)>)
    requires i <= |p|
    ensures r.Some? ==> i < r.value.1 <= |p| && |r.value.0| % 2 == 0
    decreases |p| - i
  {
    if i == |p| then None
    else if p[i] == '}' && i != start then Some(("", i + 1))
    else if i + 2 < |p| && p[i + 1] == '-' && p[i + 2] != '}' then Before([p[i], p[i + 2]], SetAt(p, i + 3, start))
    else Before([p[i], p[i]], SetAt(p, i + 1, start))
  }

  function LiteralToken(p: string, i: nat): Token
    requires i <= |p|
  {
    match LiteralAt(p, i)
    case None => NoChar
    case Some(l) => Token(Literal(l.0), l.1)
  }

  function SetToken(p: string, i: nat): Token
    requires i < |p|
  {
    var negated := i + 1 < |p| && p[i + 1] == '^';
    var start := if negated then i + 2 else i + 1;
    match SetAt(p, start, start)
    case None => NoClosing
    case Some(l) => Token(if negated then NotInSet(l.0) else InSet(l.0), l.1)
  }

  /** The token at i; a bracket opens a numeric range only right after a literal. */
  function TokenAt(p: string, i: nat, dotted: bool, afterLiteral: bool): (t: Token)
    requires i < |p|
    ensures t.Token? ==> i <= t.end <= |p| && t.e != End && EvenSet(t.e) && (t.end == i ==> !afterLiteral && t.e.Literal?)
  {
    match p[i]
    case '?' => Token(if dotted then CommonChar else AnyChar, i + 1)
    case '[' =>
      if afterLiteral && NumRangeAt(p, i, ']').Some? then
        var r := NumRangeAt(p, i, ']').value;
        Token(NumRange(r.lo, r.up), r.end)
      else LiteralToken(p, i)
    case '{' =>
      if NumRangeAt(p, i, '}').Some? then
        var r := NumRangeAt(p, i, '}').value;
        Token(NumRange(r.lo, r.up), r.end + 1)
      else SetToken(p, i)
    case '*' =>
      if i + 1 < |p| && p[i + 1] == '*' then Token(AnySeq, i + 2)
      else Token(if dotted then CommonSeq else AnySeq, i + 1)
    case _ => LiteralToken(p, i)
  }

  predicate EndsInLiteral(es: seq<Elem>) {
    es != [] && es[|es| - 1].Literal?
  }

  /** The elements read so far and those from i on. */
  function ElementsFrom(p: string, i: nat, dotted: bool, es: seq<Elem>): (r: Parsed)
    requires i <= |p| && forall e <- es :: e != End && EvenSet(e)
    ensures r.Elements? ==> forall e <- r.es :: e != End && EvenSet(e)
    decreases |p| - i, !EndsInLiteral(es)
  {
    if i == |p| then Elements(es)
    else
      match TokenAt(p, i, dotted, EndsInLiteral(es))
      case Token(e, end) => ElementsFrom(p, end, dotted, es + [e])
      case NoClosing => Unmatched
      case NoChar => PastEnd
  }

  function Compile(p: string, dotted: bool, full: bool): Parsed {
    match ElementsFrom(p, 0, dotted, [])
    case Elements(es) => Elements(if full then es else Wrapped(es))
    case failure => failure
  }

  // ---------------------------------------------------------------------------------
  // Patterns without wildcards, and escaped ones

  predicate ContainsWildcards(p: string) {
    '?' in p || '*' in p || '\\' in p || '{' in p || exists i | 0 <= i < |p| :: TwoDotsAt(p, i)
  }

  predicate TwoDotsAt(p: string, i: nat)
    requires i < |p|
  {
    i + 1 < |p| && p[i] == '.' && p[i + 1] == '.'
  }

  lemma {:induction false} PlainIsLiteral(p: string, i: nat)
    requires i <= |p| && !ContainsWildcards(p)
    ensures LiteralAt(p, i) == Some((p[i..], |p|))
    decreases |p| - i
  {
    if i == |p| {
      assert p[i..] == "";
    } else {
      var a := DigitsEnd(p, i + 1);
      assert a < |p| ==> !TwoDotsAt(p, a);
      assert NumRangeAt(p, i, ']') == None;
      assert p[i] in p;
      PlainIsLiteral(p, i + 1);
      assert p[i..] == [p[i]] + p[i + 1..];
    }
  }

  lemma DenotesLiteral(text: string, line: string)
    ensures Denotes([Literal(text)], line, "") <==> line == text
  {
    assert [Literal(text)] == [Literal(text)] + [];
    DenotesCut(Literal(text), [], line, "");
    if i: nat :| i <= |line| && FirstCut(Literal(text), line, "", i) && Denotes([], line[i..], "") {
      DenotesNothing(line[i..], "");
    }
    if line == text {
      assert line[..|line|] == line && line[|line|..] == "";
      assert FirstCut(Literal(text), line, "", |line|);
      DenotesNothing("", "");
    }
  }

  /** A text that is read as one literal stands for that literal alone. */
  lemma SingleLiteral(p: string, dotted: bool, text: string)
    requires LiteralAt(p, 0) == Some((text, |p|)) && (p == "" ==> text == "")
    requires p != "" ==> p[0] !in "?{*"
    ensures var r := Compile(p, dotted, true); r.Elements? && forall line :: Denotes(r.es, line, "") <==> line == text
  {
    if p == "" {
      forall line ensures Denotes([], line, "") <==> line == "" {
        DenotesNothing(line, "");
      }
    } else {
      assert TokenAt(p, 0, dotted, false) == LiteralToken(p, 0) == Token(Literal(text), |p|);
      assert [] + [Literal(text)] == [Literal(text)];
      assert ElementsFrom(p, 0, dotted, []) == ElementsFrom(p, |p|, dotted, [Literal(text)]) == Elements([Literal(text)]);
      forall line ensures Denotes([Literal(text)], line, "") <==> line == text {
        DenotesLiteral(text, line);
      }
    }
  }

  /** Where ContainsWildcards says no, matching is comparing. */
  lemma NoWildcardsMeansEquality(p: string, dotted: bool)
    requires !ContainsWildcards(p)
    ensures var r := Compile(p, dotted, true); r.Elements? && forall line :: Denotes(r.es, line, "") <==> line == p
  {
    PlainIsLiteral(p, 0);
    assert p[0..] == p && (p != "" ==> p[0] in p);
    SingleLiteral(p, dotted, p);
  }

  /** Every character behind a backslash. */
  function Escaped(w: string): string {
    if w == "" then "" else ['\\', w[0]] + Escaped(w[1..])
  }

  lemma {:induction false} EscapedIsLiteral(prefix: string, w: string)
    ensures LiteralAt(prefix + Escaped(w), |prefix|) == Some((w, |prefix + Escaped(w)|))
    decreases |w|
  {
    var p := prefix + Escaped(w);
    if w != "" {
      var next := prefix + ['\\', w[0]];
      assert p == next + Escaped(w[1..]);
      EscapedIsLiteral(next, w[1..]);
      var j := |prefix| + 1;
      assert p[|prefix|] == '\\' && p[j] == w[0];
      assert w[1..] != "" ==> p[j + 1] == '\\';
      assert DigitsEnd(p, j + 1) == j + 1;
      assert NumRangeAt(p, j, ']') == None;
      assert w == [w[0]] + w[1..];
    }
  }

  /** With a backslash before each character, any text matches exactly itself. */
  lemma EscapingIsExact(w: string, dotted: bool)
    ensures var r := Compile(Escaped(w), dotted, true); r.Elements? && forall line :: Denotes(r.es, line, "") <==> line == w
  {
    EscapedIsLiteral("", w);
    assert "" + Escaped(w) == Escaped(w);
    SingleLiteral(Escaped(w), dotted, w);
  }

  lemma {:induction false} DigitsEndIs(p: string, i: nat, j: nat)
    requires i <= j <= |p| && AllDigits(p[i..j]) && (j < |p| ==> !IsDigit(p[j]))
    ensures DigitsEnd(p, i) == j
    decreases j - i
  {
    if i < j {
      assert p[i] == p[i..j][0] && p[i..j][1..] == p[i + 1..j];
      DigitsEndIs(p, i + 1, j);
    }
  }

  function Bracketed(n: string, m: string): string {
    "[" + n + ".." + m + "]"
  }

  /** Behind a backslash. */
  lemma BracketedParts(n: string, m: string)
    ensures var p := "\\" + Bracketed(n, m); var a, b := |n| + 2, |n| + |m| + 4;
            && |p| == b + 1 && p[0] == '\\' && p[1] == '[' && p[2..a] == n && p[a] == p[a + 1] == '.' && p[a + 2..b] == m && p[b] == ']'
  {
  }

  lemma EscapedRangeTokens(p: string, n: string, m: string, dotted: bool)
    requires AllDigits(n) && AllDigits(m) && p == "\\" + Bracketed(n, m)
    ensures var number := NumRange(Bound(n, 0, |n|), Bound(m, 0, |m|)); var b := |n| + |m| + 4;
            && TokenAt(p, 0, dotted, false) == Token(Literal("["), 1)
            && TokenAt(p, 1, dotted, true) == Token(number, b)
            && TokenAt(p, b, dotted, false) == Token(Literal("]"), b + 1)
  {
    var b := |n| + |m| + 4;
    BracketedParts(n, m);
    hide Bracketed, AllDigits, DigitsEnd, Bound;
    RangeIsRead(p, 1, n, m, ']');
    assert LiteralAt(p, 0) == Some(("[", 1));
    assert LiteralAt(p, b + 1) == Some(("", b + 1));
    hide NumRangeAt;
  }

  /** The text between the opening character at i and the closing one is "n..m". */
  predicate IsRange(p: string, i: nat, n: string, m: string, closing: char) {
    && AllDigits(n) && AllDigits(m) && i + |n| + |m| + 3 < |p|
    && p[i + 1..i + 1 + |n|] == n && p[i + 1 + |n|] == p[i + 2 + |n|] == '.'
    && p[i + 3 + |n|..i + 3 + |n| + |m|] == m && p[i + 3 + |n| + |m|] == closing
  }

  /** The number written, or -1 for a missing one. */
  function Limit(n: string): int
    requires AllDigits(n)
  {
    if n == "" then -1 else Atol(n)
  }

  lemma BoundIsLimit(n: string)
    requires AllDigits(n)
    ensures Bound(n, 0, |n|) == Limit(n)
  {
    assert n[0..|n|] == n;
  }

  lemma RangeValue(p: string, i: nat, n: string, m: string, closing: char)
    requires i < |p| && !IsDigit(closing) && IsRange(p, i, n, m, closing)
    ensures NumRangeAt(p, i, closing) == Some(Range(Limit(n), Limit(m), i + 3 + |n| + |m|))
  {
    hide NumRangeAt, Bound, Limit, AllDigits;
    RangeIsRead(p, i, n, m, closing);
    BoundIsLimit(n);
    BoundIsLimit(m);
  }

  lemma RangeFound(p: string, i: nat, closing: char)
    requires i < |p| && NumRangeAt(p, i, closing).Some?
    ensures exists n, m :: IsRange(p, i, n, m, closing)
  {
    var a := DigitsEnd(p, i + 1);
    var b := DigitsEnd(p, a + 2);
    hide AllDigits, DigitsEnd, Bound;
    assert IsRange(p, i, p[i + 1..a], p[a + 2..b], closing);
  }

  /** A numeric range is recognized exactly where there is one, either bound missing or not, and
      its bounds are the numbers written. */
  lemma RangeExactlyWhen(p: string, i: nat, closing: char)
    requires i < |p| && !IsDigit(closing)
    ensures NumRangeAt(p, i, closing).Some? <==> exists n, m :: IsRange(p, i, n, m, closing)
    ensures forall n, m | IsRange(p, i, n, m, closing) ::
              NumRangeAt(p, i, closing) == Some(Range(Limit(n), Limit(m), i + 3 + |n| + |m|))
  {
    forall n, m | IsRange(p, i, n, m, closing)
      ensures NumRangeAt(p, i, closing) == Some(Range(Limit(n), Limit(m), i + 3 + |n| + |m|))
    {
      RangeValue(p, i, n, m, closing);
    }
    if NumRangeAt(p, i, closing).Some? {
      RangeFound(p, i, closing);
    }
    hide NumRangeAt, Limit;
  }

  lemma RangeIsRead(p: string, i: nat, n: string, m: string, closing: char)
    requires AllDigits(n) && AllDigits(m) && i + |n| + |m| + 3 < |p| && !IsDigit(closing)
    requires p[i + 1..i + 1 + |n|] == n && p[i + 1 + |n|] == p[i + 2 + |n|] == '.'
    requires p[i + 3 + |n|..i + 3 + |n| + |m|] == m && p[i + 3 + |n| + |m|] == closing
    ensures NumRangeAt(p, i, closing) == Some(Range(Bound(n, 0, |n|), Bound(m, 0, |m|), i + 3 + |n| + |m|))
  {
    DigitsEndIs(p, i + 1, i + 1 + |n|);
    DigitsEndIs(p, i + 3 + |n|, i + 3 + |n| + |m|);
    assert n[0..|n|] == n && m[0..|m|] == m;
    hide Atol, AllDigits, DigitsEnd;
  }

  /** So a range whose bracket is escaped is compiled as if it were not, and misses its own text. */
  lemma EscapedRangeMissesItself(n: string, m: string, dotted: bool)
    requires AllDigits(n) && AllDigits(m)
    ensures var r := Compile("\\" + Bracketed(n, m), dotted, true);
            && r == Elements([Literal("["), NumRange(Bound(n, 0, |n|), Bound(m, 0, |m|)), Literal("]")])
            && !Denotes(r.es, Bracketed(n, m), "")
  {
    var text := Bracketed(n, m);
    var p := "\\" + text;
    BracketedParts(n, m);
    EscapedRangeTokens(p, n, m, dotted);
    var number := NumRange(Bound(n, 0, |n|), Bound(m, 0, |m|));
    hide *;
    ThreeTokens(p, dotted, Literal("["), number, Literal("]"), 1, |n| + |m| + 4);
    assert text[|n| + 1] == p[|n| + 2];
    if Denotes([Literal("["), number, Literal("]")], text, "") {
      BracketedNumberHasNoDot(number, text);
    }
  }

  lemma ThreeTokens(p: string, dotted: bool, e1: Elem, e2: Elem, e3: Elem, i1: nat, i2: nat)
    requires 0 < i1 < i2 < |p| && e1.Literal? && !e2.Literal?
    requires TokenAt(p, 0, dotted, false) == Token(e1, i1)
    requires TokenAt(p, i1, dotted, true) == Token(e2, i2)
    requires TokenAt(p, i2, dotted, false) == Token(e3, |p|)
    ensures Compile(p, dotted, true) == Elements([e1, e2, e3])
  {
    hide TokenAt;
    assert [] + [e1] == [e1] && [e1] + [e2] == [e1, e2] && [e1, e2] + [e3] == [e1, e2, e3];
    assert ElementsFrom(p, i2, dotted, [e1, e2]) == ElementsFrom(p, |p|, dotted, [e1, e2, e3]) == Elements([e1, e2, e3]);
    assert ElementsFrom(p, 0, dotted, []) == ElementsFrom(p, i1, dotted, [e1]) == ElementsFrom(p, i2, dotted, [e1, e2]);
  }

  lemma BracketedNumberHasNoDot(number: Elem, line: string)
    requires number.NumRange? && Denotes([Literal("["), number, Literal("]")], line, "")
    ensures '.' !in line
  {
    var es := [Literal("["), number, Literal("]")];
    var pieces :| Split(es, pieces, "") && Joined(pieces) == line;
    var es1, es2, p1, p2 := es[1..], es[2..], pieces[1..], pieces[2..];
    assert es1[1..] == es2 && p1[1..] == p2;
    assert Split(es1, p1, "") && Split(es2, p2, "");
    assert Joined(p2) == p2[0] + Joined(p2[1..]) && p2[1..] == [];
    assert line == pieces[0] + (pieces[1] + pieces[2]);
    forall c | c in pieces[1] ensures c != '.' {
      assert IsDigit(c);
    }
  }
}
