/** The pattern matcher: compiling and matching by backtracking. */
module PatternMatching {
  import opened Basics
  import opened PatternMeaning
  import opened PatternSyntax

  /** Compiled patterns end with End, which occurs nowhere else. */
  predicate Compiled(pattern: seq<Elem>) {
    pattern != [] && pattern[|pattern| - 1] == End && forall i :: 0 <= i < |pattern| - 1 ==> pattern[i] != End
  }

  ghost predicate DenotesFrom(pattern: seq<Elem>, k: nat, line: string, s: nat)
    requires k < |pattern| && s <= |line|
  {
    Denotes(pattern[k..|pattern| - 1], line[s..], "")
  }

  /** One element: the line from s on is matched iff the first element takes it to some i. */
  lemma OneElement(pattern: seq<Elem>, k: nat, line: string, s: nat)
    requires k + 1 < |pattern| && s <= |line|
    ensures DenotesFrom(pattern, k, line, s) <==>
            exists i: nat :: s <= i <= |line| && Fits(pattern[k], line[s..i], line[i..]) && DenotesFrom(pattern, k + 1, line, i)
  {
    var es := pattern[k + 1..|pattern| - 1];
    var tail := line[s..];
    assert pattern[k..|pattern| - 1] == [pattern[k]] + es;
    DenotesCut(pattern[k], es, tail, "");
    if j: nat :| j <= |tail| && FirstCut(pattern[k], tail, "", j) && Denotes(es, tail[j..], "") {
      assert tail[..j] == line[s..s + j] && tail[j..] == line[s + j..] && tail[j..] + "" == tail[j..];
      assert Fits(pattern[k], line[s..s + j], line[s + j..]) && DenotesFrom(pattern, k + 1, line, s + j);
    }
    if i: nat :| s <= i <= |line| && Fits(pattern[k], line[s..i], line[i..]) && DenotesFrom(pattern, k + 1, line, i) {
      assert tail[..i - s] == line[s..i] && tail[i - s..] == line[i..] && tail[i - s..] + "" == tail[i - s..];
      assert FirstCut(pattern[k], tail, "", i - s);
    }
  }

  lemma LastElement(pattern: seq<Elem>, k: nat, line: string, s: nat)
    requires k + 1 == |pattern| && s <= |line|
    ensures DenotesFrom(pattern, k, line, s) <==> s == |line|
  {
    assert pattern[k..|pattern| - 1] == [];
    DenotesNothing(line[s..], "");
  }

  /** An element that takes pieces of one length only, or of none. */
  lemma FixedElement(pattern: seq<Elem>, k: nat, line: string, s: nat, i: nat)
    requires k + 1 < |pattern| && s <= |line| && s <= i
    requires forall j: nat :: s <= j <= |line| && Fits(pattern[k], line[s..j], line[j..]) ==> j == i
    ensures DenotesFrom(pattern, k, line, s) <==>
            i <= |line| && Fits(pattern[k], line[s..i], line[i..]) && DenotesFrom(pattern, k + 1, line, i)
  {
    OneElement(pattern, k, line, s);
  }

  predicate EndsWith(s: string, ending: string) {
    |s| >= |ending| && s[|s| - |ending|..] == ending
  }

  /** The first shortcut: a pattern that ends in ** takes any rest. */
  lemma AnySeqLast(pattern: seq<Elem>, k: nat, line: string, s: nat)
    requires k + 2 == |pattern| && s <= |line| && pattern[k] == AnySeq
    ensures DenotesFrom(pattern, k, line, s)
  {
    OneElement(pattern, k, line, s);
    LastElement(pattern, k + 1, line, |line|);
    assert Fits(pattern[k], line[s..|line|], line[|line|..]);
  }

  lemma LiteralLast(pattern: seq<Elem>, k: nat, line: string, s: nat)
    requires k + 2 == |pattern| && s <= |line| && pattern[k].Literal?
    ensures DenotesFrom(pattern, k, line, s) <==> line[s..] == pattern[k].text
  {
    FixedElement(pattern, k, line, s, s + |pattern[k].text|);
    if s + |pattern[k].text| <= |line| {
      LastElement(pattern, k + 1, line, s + |pattern[k].text|);
    }
  }

  /** The second shortcut: after ** and before the end, a literal is an ending. */
  lemma AnySeqLiteralLast(pattern: seq<Elem>, k: nat, line: string, s: nat)
    requires k + 3 == |pattern| && s <= |line| && pattern[k] == AnySeq && pattern[k + 1].Literal?
    ensures DenotesFrom(pattern, k, line, s) <==> EndsWith(line[s..], pattern[k + 1].text)
  {
    OneElement(pattern, k, line, s);
    var text := pattern[k + 1].text;
    forall i: nat | s <= i <= |line| ensures DenotesFrom(pattern, k + 1, line, i) <==> line[i..] == text {
      LiteralLast(pattern, k + 1, line, i);
    }
    if EndsWith(line[s..], text) {
      var i := |line| - |text|;
      assert line[s..][|line[s..]| - |text|..] == line[i..];
      assert Fits(AnySeq, line[s..i], line[i..]);
    }
    if DenotesFrom(pattern, k, line, s) {
      var i: nat :| s <= i <= |line| && Fits(AnySeq, line[s..i], line[i..]) && DenotesFrom(pattern, k + 1, line, i);
      assert line[s..][i - s..] == line[i..];
    }
  }

  /** The check of the last two characters rejects only lines that do not match. */
  lemma {:induction false} LiteralEnding(pattern: seq<Elem>, k: nat, line: string, s: nat)
    requires Compiled(pattern) && k + 1 < |pattern| && s <= |line| && pattern[|pattern| - 2].Literal?
    requires DenotesFrom(pattern, k, line, s)
    ensures EndsWith(line, pattern[|pattern| - 2].text)
    decreases |pattern| - k
  {
    if k + 2 == |pattern| {
      LiteralLast(pattern, k, line, s);
    } else {
      OneElement(pattern, k, line, s);
      var i: nat :| s <= i <= |line| && Fits(pattern[k], line[s..i], line[i..]) && DenotesFrom(pattern, k + 1, line, i);
      LiteralEnding(pattern, k + 1, line, i);
    }
  }

  lemma {:induction false} DigitsReach(line: string, s: nat, j: nat)
    requires s <= j <= |line| && AllDigits(line[s..j])
    ensures j <= DigitsEnd(line, s)
    decreases j - s
  {
    if s < j {
      assert line[s..j][0] == line[s] && line[s..j][1..] == line[s + 1..j];
      DigitsReach(line, s + 1, j);
    }
  }

  lemma {:induction false} NonDigitStops(line: string, s: nat, j: nat)
    requires s <= j <= |line| && (j < |line| ==> !IsDigit(line[j]))
    ensures DigitsEnd(line, s) <= j
    decreases j - s
  {
    if s < j {
      NonDigitStops(line, s + 1, j);
    }
  }

  lemma NumberTakesAllDigits(line: string, s: nat, j: nat, lo: int, up: int)
    requires s <= j <= |line| && Fits(NumRange(lo, up), line[s..j], line[j..])
    ensures j == DigitsEnd(line, s) && j > s
  {
    assert j < |line| ==> line[j..][0] == line[j];
    DigitsReach(line, s, j);
    NonDigitStops(line, s, j);
  }

  class PatternMatcher {
    var pattern: seq<Elem>

    /** A pattern that matches the empty line only, until SetPattern is called. */
    constructor ()
      ensures pattern == [End]
    {
      pattern := [End];
    }

    /** Recognizes "n..m" up to the closing character exactly where it stands; -1 is a missing bound. */
    method ParseNumRange(p: string, i: nat, closing: char) returns (r: Option<Range>)
      requires i < |p| && !IsDigit(closing)
      ensures r.Some? <==> exists n, m :: IsRange(p, i, n, m, closing)
      ensures forall n, m | IsRange(p, i, n, m, closing) ::
                r == Some(Range(Limit(n), Limit(m), i + 3 + |n| + |m|))
      ensures r == NumRangeAt(p, i, closing)
    {
      r := None;
      var lo: int, up: int := -1, -1;
      var a := SkipDigits(p, i + 1);
      if i + 1 < a {
        lo := Atol(p[i + 1..a]);
      }
      if a + 1 < |p| && p[a] == '.' && p[a + 1] == '.' {
        var b := SkipDigits(p, a + 2);
        if a + 2 < b {
          up := Atol(p[a + 2..b]);
        }
        if b < |p| && p[b] == closing {
          r := Some(Range(lo, up, b));
        }
      }
      assert r == NumRangeAt(p, i, closing);
      hide *;
      RangeExactlyWhen(p, i, closing);
    }

    /** None if a trailing backslash leads past the end. */
    method ParseLiteralString(p: string, from: nat) returns (r: Option<(string, nat)>)
      requires from <= |p|
      ensures r == LiteralAt(p, from)
    {
      hide IsRange, NumRangeAt, Limit, LiteralAt;
      var i, text := from, "";
      BeforeNothing(LiteralAt(p, i));
      while i < |p| && p[i] != '?' && p[i] != '{' && p[i] != '*'
        invariant from <= i <= |p|
        invariant LiteralAt(p, from) == Before(text, LiteralAt(p, i))
        decreases |p| - i
      {
        ghost var start := i;
        LiteralEnds(p, i);
        if p[i] == '\\' {
          i := i + 1;
          if i == |p| {
            return None;
          }
        }
        LiteralStep(p, start, i);
        BeforeBefore(text, [p[i]], LiteralAt(p, i + 1));
        text := text + [p[i]];
        if p[i] == '[' {
          var range := ParseNumRange(p, i, ']');
          if range.Some? {
            return Some((text, i));
          }
        }
        i := i + 1;
      }
      LiteralEnds(p, i);
      assert text + "" == text;
      r := Some((text, i));
    }

    /** None if the set is not closed. */
    method ParseSet(p: string, i: nat) returns (r: Option<(Elem, nat)>)
      requires i < |p|
      ensures SetToken(p, i) == if r.Some? then Token(r.value.0, r.value.1) else NoClosing
    {
      var s, negated, pairs := i + 1, false, "";
      if s < |p| && p[s] == '^' {
        s, negated := s + 1, true;
      }
      var start := s;
      BeforeNothing(SetAt(p, s, start));
      while s < |p| && (p[s] != '}' || s == start)
        invariant start <= s <= |p|
        invariant SetAt(p, start, start) == Before(pairs, SetAt(p, s, start))
        decreases |p| - s
      {
        if s + 2 < |p| && p[s + 1] == '-' && p[s + 2] != '}' {
          BeforeBefore(pairs, [p[s], p[s + 2]], SetAt(p, s + 3, start));
          pairs := pairs + [p[s], p[s + 2]];
          s := s + 3;
        } else {
          BeforeBefore(pairs, [p[s], p[s]], SetAt(p, s + 1, start));
          pairs := pairs + [p[s], p[s]];
          s := s + 1;
        }
      }
      if s == |p| {
        return None;
      }
      assert pairs + "" == pairs;
      r := Some((if negated then NotInSet(pairs) else InSet(pairs), s + 1));
    }

    method ParseToken(p: string, i: nat, dotted: bool) returns (t: Token)
      requires i < |p|
      ensures t == TokenAt(p, i, dotted, EndsInLiteral(pattern))
    {
      match p[i] {
        case '?' =>
          return Token(if dotted then CommonChar else AnyChar, i + 1);
        case '[' =>
          if pattern != [] && pattern[|pattern| - 1].Literal? {
            var r := ParseNumRange(p, i, ']');
            if r.Some? {
              return Token(NumRange(r.value.lo, r.value.up), r.value.end);
            }
          }
        case '{' =>
          var r := ParseNumRange(p, i, '}');
          if r.Some? {
            return Token(NumRange(r.value.lo, r.value.up), r.value.end + 1);
          }
          var set_ := ParseSet(p, i);
          return if set_.Some? then Token(set_.value.0, set_.value.1) else NoClosing;
        case '*' =>
          return if i + 1 < |p| && p[i + 1] == '*' then Token(AnySeq, i + 2)
                 else Token(if dotted then CommonSeq else AnySeq, i + 1);
        case _ =>
      }
      var l := ParseLiteralString(p, i);
      t := if l.Some? then Token(Literal(l.value.0), l.value.1) else NoChar;
    }

    method SetPattern(p: string, dotted: bool, full: bool) returns (r: Parsed)
      modifies this
      ensures r == Compile(p, dotted, full)
      ensures r.Elements? ==> pattern == r.es + [End] && Compiled(pattern) && forall e <- pattern :: EvenSet(e)
    {
      pattern := [];
      var i := 0;
      while i < |p|
        invariant i <= |p| && forall e <- pattern :: e != End && EvenSet(e)
        invariant ElementsFrom(p, i, dotted, pattern) == ElementsFrom(p, 0, dotted, [])
        decreases |p| - i, !EndsInLiteral(pattern)
      {
        var t := ParseToken(p, i, dotted);
        if t == NoClosing {
          return Unmatched;
        }
        if t == NoChar {
          return PastEnd;
        }
        pattern, i := pattern + [t.e], t.end;
      }
      if !full {
        if pattern == [] || pattern[|pattern| - 1] != AnySeq {
          pattern := pattern + [AnySeq];
        }
        if pattern[0] != AnySeq {
          pattern := [AnySeq] + pattern;
        }
      }
      r := Elements(pattern);
      assert forall e <- pattern :: e != End && EvenSet(e);
      assert forall k :: 0 <= k < |pattern| ==> pattern[k] in pattern;
      pattern := pattern + [End];
    }

    method IsInSet(c: char, pairs: string) returns (found: bool)
      requires |pairs| % 2 == 0
      ensures found == Contains(pairs, c)
    {
      var i := 0;
      while 2 * i < |pairs|
        invariant 2 * i <= |pairs|
        invariant forall k: nat :: k < i ==> !PairHas(pairs, k, c)
      {
        if pairs[2 * i] <= c && c <= pairs[2 * i + 1] {
          assert PairHas(pairs, i, c);
          return true;
        }
        i := i + 1;
      }
      found := false;
    }

    method SkipDigits(s: string, from: nat) returns (e: nat)
      requires from <= |s|
      ensures e == DigitsEnd(s, from)
    {
      e := from;
      while e < |s| && IsDigit(s[e])
        invariant from <= e <= |s| && DigitsEnd(s, e) == DigitsEnd(s, from)
      {
        e := e + 1;
      }
    }

    /** Matches the line from position `from` on against the pattern from element `first` on, and
        answers what the elements mean: shortcuts and backtracking change nothing. */
    method DoMatch(line: string, from: nat, first: nat) returns (matched: bool)
      requires Compiled(pattern) && first < |pattern| && from <= |line|
      requires forall e <- pattern :: EvenSet(e)
      ensures matched <==> DenotesFrom(pattern, first, line, from)
      decreases |pattern| - first, 1
    {
      var s: nat, k: nat := from, first;
      while true
        invariant first <= k < |pattern| && s <= |line|
        invariant DenotesFrom(pattern, k, line, s) <==> DenotesFrom(pattern, first, line, from)
        decreases |pattern| - k
      {
        if k + 1 == |pattern| {
          LastElement(pattern, k, line, s);
          return s == |line|;
        }
        var e := pattern[k];
        if e == AnySeq {
          if k + 2 == |pattern| {
            AnySeqLast(pattern, k, line, s);
            return true;
          }
          if k + 3 == |pattern| && pattern[k + 1].Literal? {
            AnySeqLiteralLast(pattern, k, line, s);
            return EndsWith(line[s..], pattern[k + 1].text);
          }
          matched := TryAll(line, s, k, false);
          return;
        }
        if e == CommonSeq {
          matched := TryAll(line, s, k, true);
          return;
        }
        var i, fits := TakeOne(e, line, s);
        FixedElement(pattern, k, line, s, i);
        if !fits {
          return false;
        }
        s, k := i, k + 1;
      }
    }

    /** The loop of * and **: longer and longer pieces, as far as allowed. */
    method TryAll(line: string, from: nat, k: nat, common: bool) returns (matched: bool)
      requires Compiled(pattern) && k + 1 < |pattern| && from <= |line|
      requires forall e <- pattern :: EvenSet(e)
      requires pattern[k] == if common then CommonSeq else AnySeq
      ensures matched <==> DenotesFrom(pattern, k, line, from)
      decreases |pattern| - k, 0
    {
      var s: nat, next: nat := from, k + 1;
      OneElement(pattern, k, line, from);
      while true
        invariant from <= s <= |line|
        invariant common ==> '.' !in line[from..s]
        invariant forall i: nat :: from <= i < s ==> !DenotesFrom(pattern, next, line, i)
        decreases |line| - s
      {
        matched := DoMatch(line, s, next);
        if matched {
          assert Fits(pattern[k], line[from..s], line[s..]);
          return;
        }
        if s == |line| || (common && line[s] == '.') {
          forall i: nat | s < i <= |line| ensures line[s] in line[from..i] {
            assert line[from..i][s - from] == line[s];
          }
          return false;
        }
        s := s + 1;
      }
    }

    /** One of the other elements: the only place where its piece can end, and whether it fits. */
    method TakeOne(e: Elem, line: string, s: nat) returns (i: nat, fits: bool)
      requires s <= |line| && EvenSet(e) && e != AnySeq && e != CommonSeq && e != End
      ensures s <= i && fits == (i <= |line| && Fits(e, line[s..i], line[i..]))
      ensures forall j: nat :: s <= j <= |line| && Fits(e, line[s..j], line[j..]) ==> j == i
    {
      i, fits := s + 1, false;
      match e {
        case Literal(text) =>
          i := s + |text|;
          fits := i <= |line| && line[s..i] == text;
        case AnyChar =>
          fits := s < |line|;
        case CommonChar =>
          fits := s < |line| && line[s] != '.';
        case InSet(pairs) =>
          if s < |line| {
            fits := IsInSet(line[s], pairs);
          }
        case NotInSet(pairs) =>
          if s < |line| {
            fits := IsInSet(line[s], pairs);
            fits := !fits;
          }
        case NumRange(lo, up) =>
          forall j: nat | s <= j <= |line| && Fits(e, line[s..j], line[j..]) ensures j == DigitsEnd(line, s) {
            NumberTakesAllDigits(line, s, j, lo, up);
          }
          i := SkipDigits(line, s);
          fits := s < i && InRange(Atol(line[s..i]), lo, up);
      }
    }

    method Matches(line: string) returns (matched: bool)
      requires Compiled(pattern) && forall e <- pattern :: EvenSet(e)
      ensures matched <==> Denotes(pattern[..|pattern| - 1], line, "")
    {
      assert pattern[0..|pattern| - 1] == pattern[..|pattern| - 1] && line[0..] == line;
      if |pattern| >= 2 {
        var e := pattern[|pattern| - 2];
        if e.Literal? {
          var p, n := |e.text|, |line|;
          if p >= 2 && n >= 2 && (line[n - 1] != e.text[p - 1] || line[n - 2] != e.text[p - 2]) {
            if DenotesFrom(pattern, 0, line, 0) {
              LiteralEnding(pattern, 0, line, 0);
            }
            return false;
          }
        }
      }
      matched := DoMatch(line, 0, 0);
    }
  }
}
