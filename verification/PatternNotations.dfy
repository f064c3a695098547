/** What each documented notation matches, said of the text of the pattern and of the line. */
module PatternNotations {
  import opened PatternMeaning
  import opened PatternSyntax
  import opened PatternGrammar

  predicate Member(item: Item, c: char) {
    match item
    case One(x) => c == x
    case Span(a, b) => a <= c <= b
  }

  /** The line is a number between the two written, both included; a missing one is no limit. */
  predicate IsNumber(line: string, n: string, m: string)
    requires AllDigits(n) && AllDigits(m)
  {
    && line != "" && AllDigits(line)
    && (n != "" ==> Atol(n) <= Atol(line)) && (m != "" ==> Atol(line) <= Atol(m))
  }

  /** The line begins with the text, and each bracketed range in it stands for a number. */
  ghost predicate IsText(line: string, w: seq<Letter>, more: seq<Bracket>)
    requires forall b <- more :: AllDigits(b.n) && AllDigits(b.m)
    decreases |more|
  {
    if more == [] then line == Chars(w)
    else
      assert more[0] in more;
      exists d, rest :: NumberBetween(line, w, d, rest) && IsNumber(d, more[0].n, more[0].m) && IsText(rest, Closed(more[0]), more[1..])
  }

  predicate NumberBetween(line: string, w: seq<Letter>, d: string, rest: string) {
    line == (Chars(w) + "[") + (d + rest)
  }

  /** The meaning of each notation, as it is documented. */
  ghost predicate MatchesNotation(g: Glyph, dotted: bool, line: string)
    requires WellFormed(g)
  {
    match g
    case Text(w, more) => IsText(line, w, more)
    case Question => |line| == 1 && (dotted ==> line[0] != '.')
    case Star => dotted ==> '.' !in line
    case DoubleStar => true
    case Set(negated, items) => |line| == 1 && (negated <==> !(exists item <- items :: Member(item, line[0])))
    case Range(n, m) => IsNumber(line, n, m)
  }

  lemma OneElementDenotes(e: Elem, line: string)
    ensures Denotes([e], line, "") <==> Fits(e, line, "")
  {
    assert [e] == [e] + [];
    DenotesCut(e, [], line, "");
    if i: nat :| i <= |line| && FirstCut(e, line, "", i) && Denotes([], line[i..], "") {
      DenotesNothing(line[i..], "");
      assert line[..i] == line && line[i..] + "" == "";
    }
    if Fits(e, line, "") {
      DenotesNothing("", "");
      assert line[..|line|] == line && line[|line|..] == "" && "" + "" == "";
      assert FirstCut(e, line, "", |line|);
    }
    hide Denotes, Fits;
  }

  /** Two characters in front of the stored pairs are one range more. */
  lemma OnePairMore(pairs: string, rest: string, c: char)
    requires |pairs| == |rest| + 2 && pairs[2..] == rest && |rest| % 2 == 0
    ensures Contains(pairs, c) <==> pairs[0] <= c <= pairs[1] || Contains(rest, c)
  {
    assert forall k: nat :: k < |rest| ==> rest[k] == pairs[k + 2];
    if pairs[0] <= c <= pairs[1] {
      assert PairHas(pairs, 0, c);
    }
    if k: nat :| k < |rest| / 2 && PairHas(rest, k, c) {
      assert PairHas(pairs, k + 1, c);
    }
    if k: nat :| k < |pairs| / 2 && PairHas(pairs, k, c) && k > 0 {
      assert PairHas(rest, k - 1, c);
    }
  }

  lemma {:induction false} SetHasMembers(items: seq<Item>, c: char)
    ensures Contains(Pairs(items), c) <==> exists item <- items :: Member(item, c)
  {
    hide Contains;
    if items == [] {
      NothingContained(c);
    } else {
      SetHasMembers(items[1..], c);
      PairsEven(items[1..]);
      OnePairMore(Pairs(items), Pairs(items[1..]), c);
      assert Pairs(items)[0] <= c <= Pairs(items)[1] <==> Member(items[0], c);
      hide Pairs, Member;
      assert items[0] in items && forall item <- items[1..] :: item in items;
      assert forall item <- items :: item == items[0] || item in items[1..];
    }
  }

  lemma NothingContained(c: char)
    ensures !Contains("", c)
  {
  }

  lemma RangeFits(line: string, n: string, m: string)
    requires AllDigits(n) && AllDigits(m)
    ensures Fits(NumRange(Limit(n), Limit(m)), line, "") <==> IsNumber(line, n, m)
  {
  }

  lemma {:induction false} TextDenotes(line: string, w: seq<Letter>, more: seq<Bracket>)
    requires forall b <- more :: AllDigits(b.n) && AllDigits(b.m)
    ensures Denotes(MeantText(w, more), line, "") <==> IsText(line, w, more)
    decreases |more|
  {
    if more == [] {
      OneElementDenotes(Literal(Chars(w)), line);
    } else {
      var b, tail := more[0], more[1..];
      assert b in more && forall c <- tail :: c in more;
      var lit, num, es := Literal(Chars(w) + "["), NumRange(Limit(b.n), Limit(b.m)), MeantText(Closed(b), tail);
      assert MeantText(w, more) == [lit, num] + es;
      if Denotes([lit, num] + es, line, "") {
        var d, rest := BracketCut(line, w, b, es);
        BeginsClosed(b, tail, rest);
        TextDenotes(rest, Closed(b), tail);
        assert NumberBetween(line, w, d, rest);
      }
      if IsText(line, w, more) {
        var d, rest :| NumberBetween(line, w, d, rest) && IsNumber(d, b.n, b.m) && IsText(rest, Closed(b), tail);
        TextDenotes(rest, Closed(b), tail);
        BeginsClosed(b, tail, rest);
        BracketJoined(line, w, b, es, d, rest);
      }
    }
  }

  /** What a text with a closing bracket in front stands for begins with that. */
  lemma BeginsClosed(b: Bracket, more: seq<Bracket>, rest: string)
    requires (forall c <- more :: AllDigits(c.n) && AllDigits(c.m)) && Denotes(MeantText(Closed(b), more), rest, "")
    ensures rest != "" && rest[0] == ']'
  {
    var es := MeantText(Closed(b), more);
    var pieces :| Split(es, pieces, "") && Joined(pieces) == rest;
    assert es[0].Literal? && es[0].text[0] == ']' by {
      assert Closed(b)[0] == Plain(']');
    }
    assert pieces[0] == es[0].text;
  }

  lemma BracketCut(line: string, w: seq<Letter>, b: Bracket, es: seq<Elem>) returns (d: string, rest: string)
    requires AllDigits(b.n) && AllDigits(b.m)
    requires Denotes([Literal(Chars(w) + "["), NumRange(Limit(b.n), Limit(b.m))] + es, line, "")
    ensures NumberBetween(line, w, d, rest) && IsNumber(d, b.n, b.m) && Denotes(es, rest, "")
  {
    var lit, num := Literal(Chars(w) + "["), NumRange(Limit(b.n), Limit(b.m));
    assert [lit, num] + es == [lit] + ([num] + es);
    DenotesCut(lit, [num] + es, line, "");
    var i: nat :| i <= |line| && FirstCut(lit, line, "", i) && Denotes([num] + es, line[i..], "");
    DenotesCut(num, es, line[i..], "");
    var j: nat :| j <= |line[i..]| && FirstCut(num, line[i..], "", j) && Denotes(es, line[i..][j..], "");
    d, rest := line[i..][..j], line[i..][j..];
    assert line == line[..i] + line[i..] && line[i..] == d + rest;
  }

  lemma BracketJoined(line: string, w: seq<Letter>, b: Bracket, es: seq<Elem>, d: string, rest: string)
    requires AllDigits(b.n) && AllDigits(b.m) && NumberBetween(line, w, d, rest) && IsNumber(d, b.n, b.m)
    requires Denotes(es, rest, "") && rest != "" && rest[0] == ']'
    ensures Denotes([Literal(Chars(w) + "["), NumRange(Limit(b.n), Limit(b.m))] + es, line, "")
  {
    var lit, num := Literal(Chars(w) + "["), NumRange(Limit(b.n), Limit(b.m));
    var tail := d + rest;
    assert [lit, num] + es == [lit] + ([num] + es);
    assert tail[..|d|] == d && tail[|d|..] == rest && rest + "" == rest;
    assert FirstCut(num, tail, "", |d|);
    DenotesCut(num, es, tail, "");
    var i := |Chars(w)| + 1;
    assert line[..i] == Chars(w) + "[" && line[i..] == tail;
    assert FirstCut(lit, line, "", i);
    DenotesCut(lit, [num] + es, line, "");
  }

  lemma MeantIsMatched(g: Glyph, dotted: bool, line: string)
    requires WellFormed(g)
    ensures Denotes(Meant(g, dotted), line, "") <==> MatchesNotation(g, dotted, line)
  {
    hide Denotes;
    if g.Text? {
      TextDenotes(line, g.w, g.more);
    } else {
      OneMeant(g, dotted);
      OneElementDenotes(Meant(g, dotted)[0], line);
      match g
      case Set(negated, items) =>
        if |line| == 1 {
          SetHasMembers(items, line[0]);
        }
      case Range(n, m) => RangeFits(line, n, m);
      case _ =>
    }
  }

  /** A pattern that consists of one notation is compiled, and then matches exactly the lines that
      its documentation says. */
  lemma NotationMatches(g: Glyph, dotted: bool, line: string)
    requires WellFormed(g)
    ensures var r := Compile(Spell(g), dotted, true); r.Elements? && (Denotes(r.es, line, "") <==> MatchesNotation(g, dotted, line))
  {
    hide WellFormed, Spell, Meant, MatchesNotation, Compile, Denotes;
    CompilingInvertsSpelling([g], dotted, true);
    assert SpellAll([g]) == Spell(g) && MeantAll([g], dotted) == Meant(g, dotted);
    MeantIsMatched(g, dotted, line);
  }
}
