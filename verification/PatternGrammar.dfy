/** The documented pattern syntax as a grammar, and the compiler as its inverse. */
module PatternGrammar {
  import opened Basics
  import opened PatternMeaning
  import opened PatternSyntax

  /** A character of a text, with or without a backslash. */
  datatype Letter = Plain(c: char) | Quoted(c: char)

  /** A member of a set: one character or a range of them. */
  datatype Item = One(c: char) | Span(a: char, b: char)

  /** A numeric range in square brackets, and the text behind it. */
  datatype Bracket = Bracket(n: string, m: string, w: seq<Letter>)

  /** The notations of the documentation: text, in which numeric ranges may stand in square
      brackets, ?, *, **, sets and numeric ranges in braces. */
  datatype Glyph =
    | Text(w: seq<Letter>, more: seq<Bracket>) | Question | Star | DoubleStar
    | Set(negated: bool, items: seq<Item>) | Range(n: string, m: string)

  function SpellLetter(l: Letter): string {
    match l
    case Plain(c) => [c]
    case Quoted(c) => ['\\', c]
  }

  function SpellLetters(w: seq<Letter>): string {
    if w == [] then "" else SpellLetter(w[0]) + SpellLetters(w[1..])
  }

  function Chars(w: seq<Letter>): string {
    if w == [] then "" else [w[0].c] + Chars(w[1..])
  }

  /** The text behind a bracketed range begins with the closing bracket. */
  function Closed(b: Bracket): seq<Letter> {
    [Plain(']')] + b.w
  }

  function SpellText(w: seq<Letter>, more: seq<Bracket>): string
    decreases |more|
  {
    if more == [] then SpellLetters(w)
    else SpellLetters(w) + ("[" + (more[0].n + (".." + (more[0].m + SpellText(Closed(more[0]), more[1..])))))
  }

  function SpellItem(item: Item): string {
    match item
    case One(c) => [c]
    case Span(a, b) => [a, '-', b]
  }

  function SpellItems(items: seq<Item>): string {
    if items == [] then "" else SpellItem(items[0]) + SpellItems(items[1..])
  }

  function Pairs(items: seq<Item>): string {
    if items == [] then "" else (match items[0] case One(c) => [c, c] case Span(a, b) => [a, b]) + Pairs(items[1..])
  }

  function Spell(g: Glyph): string {
    match g
    case Text(w, more) => SpellText(w, more)
    case Question => "?"
    case Star => "*"
    case DoubleStar => "**"
    case Set(negated, items) => (if negated then "{^" else "{") + (SpellItems(items) + "}")
    case Range(n, m) => "{" + (n + (".." + (m + "}")))
  }

  /** A text stands for itself, a bracketed range in it for a number in brackets. */
  function MeantText(w: seq<Letter>, more: seq<Bracket>): (es: seq<Elem>)
    requires forall b <- more :: AllDigits(b.n) && AllDigits(b.m)
    ensures (forall e <- es :: e != End && EvenSet(e)) && EndsInLiteral(es)
    decreases |more|
  {
    if more == [] then [Literal(Chars(w))]
    else
      assert more[0] in more;
      [Literal(Chars(w) + "["), NumRange(Limit(more[0].n), Limit(more[0].m))] + MeantText(Closed(more[0]), more[1..])
  }

  /** What each notation stands for. */
  function Meant(g: Glyph, dotted: bool): (es: seq<Elem>)
    requires WellFormed(g)
    ensures (forall e <- es :: e != End && EvenSet(e)) && (EndsInLiteral(es) <==> g.Text?) && es != []
  {
    match g
    case Text(w, more) => MeantText(w, more)
    case Question => [if dotted then CommonChar else AnyChar]
    case Star => [if dotted then CommonSeq else AnySeq]
    case DoubleStar => [AnySeq]
    case Set(negated, items) =>
      PairsEven(items);
      [if negated then NotInSet(Pairs(items)) else InSet(Pairs(items))]
    case Range(n, m) => [NumRange(Limit(n), Limit(m))]
  }

  lemma {:induction false} PairsEven(items: seq<Item>)
    ensures |Pairs(items)| % 2 == 0
  {
    if items != [] {
      PairsEven(items[1..]);
    }
  }

  /** No bracket in the text opens a numeric range. */
  predicate NoRange(t: string) {
    forall k: nat | k < |t| && t[k] == '[' :: NumRangeAt(t, k, ']') == None
  }

  /** Wildcards and backslashes are escaped. */
  predicate Guarded(w: seq<Letter>) {
    forall l <- w :: l.Plain? ==> l.c !in "?{*\\"
  }

  /** And no bracket opens a range. */
  predicate PlainText(w: seq<Letter>) {
    Guarded(w) && NoRange(SpellLetters(w))
  }

  /** A closing brace stands first or not at all, and a dash only where it does not make a range
      of its neighbours. */
  predicate ItemsOk(items: seq<Item>, first: bool) {
    items == [] ||
    (&& (match items[0]
         case One(c) => (first || c != '}') && !(|SpellItems(items[1..])| > 1 && SpellItems(items[1..])[0] == '-')
         case Span(a, b) => (first || a != '}') && b != '}')
     && ItemsOk(items[1..], false))
  }

  predicate WellFormed(g: Glyph) {
    match g
    case Text(w, more) =>
      && (w != [] || more != []) && PlainText(w)
      && forall b <- more :: AllDigits(b.n) && AllDigits(b.m) && PlainText(Closed(b))
    case Set(negated, items) =>
      && items != [] && ItemsOk(items, true) && NumRangeAt(Spell(g), 0, '}') == None
      && (!negated ==> SpellItems(items)[0] != '^')
    case Range(n, m) => AllDigits(n) && AllDigits(m)
    case _ => true
  }

  /** Whether `t` stands in `p` at position i. */
  predicate At(p: string, i: nat, t: string) {
    i + |t| <= |p| && p[i..i + |t|] == t
  }

  lemma AtIs(p: string, i: nat, t: string)
    requires At(p, i, t)
    ensures i + |t| <= |p| && p[i..i + |t|] == t
  {
  }

  lemma AtParts(p: string, i: nat, t: string, u: string)
    requires At(p, i, t + u)
    ensures At(p, i, t) && At(p, i + |t|, u)
  {
    assert p[i..i + |t + u|][..|t|] == t && p[i..i + |t + u|][|t|..] == u;
  }

  lemma AtChar(p: string, i: nat, t: string, k: nat)
    requires At(p, i, t) && k < |t|
    ensures i + k < |p| && p[i + k] == t[k]
  {
    assert p[i..i + |t|][k] == t[k];
  }

  /** What may follow a notation without changing it. */
  predicate EndsBefore(g: Glyph, p: string, end: nat) {
    match g
    case Text(_, _) => end >= |p| || p[end] in "?{*"
    case Star => end >= |p| || p[end] != '*'
    case _ => true
  }

  // ---------------------------------------------------------------------------------
  // Texts

  /** A numeric range begins and ends in the text at i, if what comes next cannot be part of it. */
  lemma RangeIsLocal(p: string, i: nat, t: string, k: nat)
    requires At(p, i, t) && k < |t| && (i + |t| < |p| ==> p[i + |t|] in "?{*[\\")
    ensures NumRangeAt(p, i + k, ']').Some? ==> NumRangeAt(t, k, ']').Some?
  {
    hide NumRangeAt, AllDigits, Limit;
    if NumRangeAt(p, i + k, ']').Some? {
      RangeFound(p, i + k, ']');
      var n, m :| IsRange(p, i + k, n, m, ']');
      RangeCharsAre(p, i + k, n, m, ']');
      assert i + k + 3 + |n| + |m| < i + |t|;
      IsRangeIn(p, i, t, k, n, m, ']');
      hide IsRange, At;
      RangeValue(t, k, n, m, ']');
    }
  }

  lemma RangeCharsAre(p: string, i: nat, n: string, m: string, closing: char)
    requires IsRange(p, i, n, m, closing)
    ensures forall j :: i < j < i + 3 + |n| + |m| ==> IsDigit(p[j]) || p[j] == '.'
  {
    forall j | i < j < i + 3 + |n| + |m| ensures IsDigit(p[j]) || p[j] == '.' {
      if j < i + 1 + |n| {
        assert p[i + 1..i + 1 + |n|][j - (i + 1)] == p[j];
      } else if j >= i + 3 + |n| {
        assert p[i + 3 + |n|..i + 3 + |n| + |m|][j - (i + 3 + |n|)] == p[j];
      }
    }
  }

  lemma IsRangeIn(p: string, i: nat, t: string, k: nat, n: string, m: string, closing: char)
    requires At(p, i, t) && IsRange(p, i + k, n, m, closing) && k + 3 + |n| + |m| < |t|
    ensures IsRange(t, k, n, m, closing)
  {
    assert forall j :: 0 <= j < |t| ==> t[j] == p[i..i + |t|][j] == p[i + j];
    assert t[k + 1..k + 1 + |n|] == p[i + k + 1..i + k + 1 + |n|];
    assert t[k + 3 + |n|..k + 3 + |n| + |m|] == p[i + k + 3 + |n|..i + k + 3 + |n| + |m|];
  }

  /** No bracket from i to end opens a range. */
  predicate NoRangeIn(p: string, i: nat, end: nat)
    requires end <= |p|
  {
    forall k: nat | i <= k < end && p[k] == '[' :: NumRangeAt(p, k, ']') == None
  }

  lemma NoRangeSplits(p: string, i: nat, k: nat, end: nat)
    requires i <= k <= end <= |p| && NoRangeIn(p, i, end)
    ensures NoRangeIn(p, i, k) && NoRangeIn(p, k, end)
  {
  }

  lemma NoRangeThere(p: string, i: nat, t: string)
    requires At(p, i, t) && NoRange(t) && (i + |t| < |p| ==> p[i + |t|] in "?{*[\\")
    ensures NoRangeIn(p, i, i + |t|)
  {
    forall k: nat | i <= k < i + |t| && p[k] == '[' ensures NumRangeAt(p, k, ']') == None {
      AtChar(p, i, t, k - i);
      RangeIsLocal(p, i, t, k - i);
    }
  }

  lemma LetterRead(p: string, i: nat, l: Letter)
    requires At(p, i, SpellLetter(l)) && (l.Plain? ==> l.c !in "?{*\\") && NoRangeIn(p, i, i + |SpellLetter(l)|)
    ensures i + |SpellLetter(l)| <= |p| && LiteralAt(p, i) == Before([l.c], LiteralAt(p, i + |SpellLetter(l)|))
  {
    hide NumRangeAt, LiteralAt, At;
    var at := i + |SpellLetter(l)| - 1;
    AtChar(p, i, SpellLetter(l), 0);
    AtChar(p, i, SpellLetter(l), |SpellLetter(l)| - 1);
    LiteralStep(p, i, at);
  }

  /** What ends a literal, and the bracket it takes along. */
  predicate LiteralStops(p: string, end: nat) {
    end < |p| ==> p[end] in "?{*" || (p[end] == '[' && NumRangeAt(p, end, ']').Some?)
  }

  function TakenAlong(p: string, end: nat): string {
    if end < |p| && p[end] == '[' then "[" else ""
  }

  lemma LiteralStopped(p: string, end: nat)
    requires end <= |p| && LiteralStops(p, end)
    ensures LiteralAt(p, end) == Some((TakenAlong(p, end), end))
  {
    hide NumRangeAt;
  }

  lemma LettersUnfold(p: string, i: nat, w: seq<Letter>)
    requires w != [] && Guarded(w) && At(p, i, SpellLetters(w)) && NoRangeIn(p, i, i + |SpellLetters(w)|)
    ensures var next := i + |SpellLetter(w[0])|; var end := i + |SpellLetters(w)|;
            && Guarded(w[1..]) && (w[0].Plain? ==> w[0].c !in "?{*\\")
            && next + |SpellLetters(w[1..])| == end <= |p| && At(p, i, SpellLetter(w[0])) && At(p, next, SpellLetters(w[1..]))
            && NoRangeIn(p, i, next) && NoRangeIn(p, next, end)
  {
    hide At, NoRangeIn, SpellLetter;
    assert w[0] in w && forall l <- w[1..] :: l in w;
    assert SpellLetters(w) == SpellLetter(w[0]) + SpellLetters(w[1..]);
    hide Guarded, SpellLetters;
    AtIs(p, i, SpellLetters(w));
    AtParts(p, i, SpellLetter(w[0]), SpellLetters(w[1..]));
    NoRangeSplits(p, i, i + |SpellLetter(w[0])|, i + |SpellLetters(w)|);
  }

  lemma CharsUnfold(w: seq<Letter>, last: string, end: nat)
    requires w != []
    ensures Some((Chars(w) + last, end)) == Before([w[0].c], Some((Chars(w[1..]) + last, end)))
  {
    assert Chars(w) + last == [w[0].c] + (Chars(w[1..]) + last);
  }

  /** The text is read up to what ends it, a bracket that opens a range included. */
  lemma {:induction false} LettersRead(p: string, i: nat, w: seq<Letter>)
    requires Guarded(w) && At(p, i, SpellLetters(w))
    requires NoRangeIn(p, i, i + |SpellLetters(w)|) && LiteralStops(p, i + |SpellLetters(w)|)
    ensures var end := i + |SpellLetters(w)|; LiteralAt(p, i) == Some((Chars(w) + TakenAlong(p, end), end))
    decreases |w|
  {
    hide NumRangeAt, LiteralAt, LiteralStops, TakenAlong, At, SpellLetter, NoRangeIn;
    var end := i + |SpellLetters(w)|;
    var last := TakenAlong(p, end);
    if w == [] {
      AtIs(p, i, SpellLetters(w));
      LiteralStopped(p, i);
      assert Chars(w) + last == last;
    } else {
      LettersUnfold(p, i, w);
      CharsUnfold(w, last, end);
      hide Guarded, SpellLetters, Chars, Before;
      LetterRead(p, i, w[0]);
      LettersRead(p, i + |SpellLetter(w[0])|, w[1..]);
    }
  }

  lemma AtFive(p: string, i: nat, a: string, b: string, c: string, d: string, e: string)
    requires At(p, i, a + (b + (c + (d + e))))
    ensures At(p, i, a) && At(p, i + |a|, b) && At(p, i + |a| + |b|, c)
    ensures At(p, i + |a| + |b| + |c|, d) && At(p, i + |a| + |b| + |c| + |d|, e)
  {
    hide At;
    AtParts(p, i, a, b + (c + (d + e)));
    AtParts(p, i + |a|, b, c + (d + e));
    AtParts(p, i + |a| + |b|, c, d + e);
    AtParts(p, i + |a| + |b| + |c|, d, e);
  }

  /** The parts of a text with a bracketed range. */
  lemma TextParts(p: string, i: nat, w: seq<Letter>, b: Bracket, rest: string)
    requires At(p, i, SpellLetters(w) + ("[" + (b.n + (".." + (b.m + rest))))) && AllDigits(b.n) && AllDigits(b.m)
    requires rest != "" && rest[0] == ']'
    ensures var k := i + |SpellLetters(w)|; var end := k + 3 + |b.n| + |b.m|;
            && At(p, i, SpellLetters(w)) && end < |p| && p[k] == '[' && p[end] == ']' && At(p, end, rest)
            && NumRangeAt(p, k, ']') == Some(PatternSyntax.Range(Limit(b.n), Limit(b.m), end))
  {
    var k := i + |SpellLetters(w)|;
    var open, dots, end := "[", "..", k + 3 + |b.n| + |b.m|;
    hide At, SpellLetters, Limit, AllDigits;
    AtFive(p, i, SpellLetters(w), open, b.n, dots, b.m + rest);
    AtParts(p, k + 3 + |b.n|, b.m, rest);
    AtChar(p, k, open, 0);
    AtChar(p, k + 1 + |b.n|, dots, 0);
    AtChar(p, k + 1 + |b.n|, dots, 1);
    AtChar(p, end, rest, 0);
    AtIs(p, k + 1, b.n);
    AtIs(p, k + 3 + |b.n|, b.m);
    RangeValue(p, k, b.n, b.m, ']');
  }

  lemma TextStarts(w: seq<Letter>, more: seq<Bracket>)
    requires (w != [] || more != []) && PlainText(w)
    ensures SpellText(w, more) != "" && SpellText(w, more)[0] !in "?{*" && |SpellLetters(w)| >= |w|
  {
    LettersLength(w);
  }

  lemma {:induction false} LettersLength(w: seq<Letter>)
    ensures |SpellLetters(w)| >= |w|
  {
    if w != [] {
      LettersLength(w[1..]);
    }
  }

  lemma BracketFirst(b: Bracket, more: seq<Bracket>)
    ensures SpellText(Closed(b), more) != "" && SpellText(Closed(b), more)[0] == ']'
  {
    assert Closed(b)[0] == Plain(']');
  }

  lemma RangeEnds(es: seq<Elem>, lit: Elem, lo: int, up: int)
    requires (forall e <- es :: e != End && EvenSet(e)) && lit.Literal?
    ensures (forall e <- es + [lit, NumRange(lo, up)] :: e != End && EvenSet(e))
    ensures !EndsInLiteral(es + [lit, NumRange(lo, up)]) && EndsInLiteral(es + [lit])
  {
  }

  lemma TextUnfolds(w: seq<Letter>, b: Bracket, more: seq<Bracket>)
    ensures SpellText(w, [b] + more) == SpellLetters(w) + ("[" + (b.n + (".." + (b.m + SpellText(Closed(b), more)))))
    ensures |SpellText(w, [b] + more)| == |SpellLetters(w)| + 3 + |b.n| + |b.m| + |SpellText(Closed(b), more)|
  {
    assert ([b] + more)[1..] == more;
  }

  lemma MeantUnfolds(es: seq<Elem>, w: seq<Letter>, b: Bracket, more: seq<Bracket>)
    requires AllDigits(b.n) && AllDigits(b.m) && forall c <- more :: AllDigits(c.n) && AllDigits(c.m)
    ensures es + MeantText(w, [b] + more)
            == es + UpToRange(w, b) + MeantText(Closed(b), more)
  {
    assert ([b] + more)[1..] == more;
  }

  lemma RestIsWellFormed(w: seq<Letter>, b: Bracket, more: seq<Bracket>)
    requires WellFormed(Text(w, [b] + more))
    ensures PlainText(w) && AllDigits(b.n) && AllDigits(b.m) && WellFormed(Text(Closed(b), more))
  {
    assert b in [b] + more && forall c <- more :: c in [b] + more;
  }

  /** The elements read from a text up to the end of its first range. */
  function UpToRange(w: seq<Letter>, b: Bracket): seq<Elem>
    requires AllDigits(b.n) && AllDigits(b.m)
  {
    [Literal(Chars(w) + "["), NumRange(Limit(b.n), Limit(b.m))]
  }

  lemma FirstRangeRead(p: string, i: nat, w: seq<Letter>, b: Bracket, more: seq<Bracket>, dotted: bool, es: seq<Elem>)
    requires (forall e <- es :: e != End && EvenSet(e)) && !EndsInLiteral(es) && AllDigits(b.n) && AllDigits(b.m)
    requires PlainText(w) && At(p, i, SpellText(w, [b] + more))
    ensures var end := i + |SpellLetters(w)| + 3 + |b.n| + |b.m|; var es' := es + UpToRange(w, b);
            && end <= |p| && At(p, end, SpellText(Closed(b), more))
            && end + |SpellText(Closed(b), more)| == i + |SpellText(w, [b] + more)|
            && (forall e <- es' :: e != End && EvenSet(e)) && !EndsInLiteral(es')
            && ElementsFrom(p, i, dotted, es) == ElementsFrom(p, end, dotted, es')
  {
    TextStarts(w, [b] + more);
    AtChar(p, i, SpellText(w, [b] + more), 0);
    TextUnfolds(w, b, more);
    BracketFirst(b, more);
    RangeEnds(es, Literal(Chars(w) + "["), Limit(b.n), Limit(b.m));
    hide SpellLetters, Chars, EndsInLiteral, ElementsFrom, NumRangeAt, At, PlainText, Limit, AllDigits, EvenSet, SpellText;
    TextParts(p, i, w, b, SpellText(Closed(b), more));
    TextAndRange(p, i, w, b, dotted, es);
  }

  /** A text with all its ranges is read as what it stands for. */
  lemma {:induction false} TextRead(p: string, i: nat, w: seq<Letter>, more: seq<Bracket>, dotted: bool, es: seq<Elem>)
    requires (forall e <- es :: e != End && EvenSet(e)) && !EndsInLiteral(es)
    requires WellFormed(Text(w, more)) && At(p, i, SpellText(w, more)) && EndsBefore(Text(w, more), p, i + |SpellText(w, more)|)
    ensures var end := i + |SpellText(w, more)|;
            end <= |p| && ElementsFrom(p, i, dotted, es) == ElementsFrom(p, end, dotted, es + MeantText(w, more))
    decreases |more|
  {
    hide SpellText, MeantText, SpellLetters, Chars, EndsInLiteral, ElementsFrom, At, PlainText, EvenSet, NumRangeAt, Limit, AllDigits;
    AtIs(p, i, SpellText(w, more));
    if more == [] {
      LastText(p, i, w, dotted, es);
    } else {
      var b, tail := more[0], more[1..];
      assert more == [b] + tail;
      RestIsWellFormed(w, b, tail);
      MeantUnfolds(es, w, b, tail);
      hide WellFormed;
      FirstRangeRead(p, i, w, b, tail, dotted, es);
      TextRead(p, i + |SpellLetters(w)| + 3 + |b.n| + |b.m|, Closed(b), tail, dotted, es + UpToRange(w, b));
    }
  }

  lemma LiteralIsElement(text: string)
    ensures Literal(text) != End && EvenSet(Literal(text))
  {
  }

  lemma LastText(p: string, i: nat, w: seq<Letter>, dotted: bool, es: seq<Elem>)
    requires (forall e <- es :: e != End && EvenSet(e)) && !EndsInLiteral(es) && w != []
    requires PlainText(w) && At(p, i, SpellText(w, [])) && EndsBefore(Text(w, []), p, i + |SpellText(w, [])|)
    ensures var end := i + |SpellText(w, [])|;
            end <= |p| && ElementsFrom(p, i, dotted, es) == ElementsFrom(p, end, dotted, es + MeantText(w, []))
  {
    hide NumRangeAt, SpellLetters, Chars, ElementsFrom, EndsInLiteral, EvenSet, At, NoRange, NoRangeIn, LiteralAt, SetToken;
    var end := i + |SpellLetters(w)|;
    assert SpellText(w, []) == SpellLetters(w) && MeantText(w, []) == [Literal(Chars(w))];
    TextStarts(w, []);
    AtChar(p, i, SpellLetters(w), 0);
    AtIs(p, i, SpellLetters(w));
    NoRangeThere(p, i, SpellLetters(w));
    LettersRead(p, i, w);
    assert Chars(w) + TakenAlong(p, end) == Chars(w);
    hide PlainText, SpellText, MeantText, TakenAlong, LiteralStops;
    assert TokenAt(p, i, dotted, false) == Token(Literal(Chars(w)), end);
    LiteralIsElement(Chars(w));
    hide TokenAt;
    OneElement(p, i, dotted, es, Literal(Chars(w)), end);
  }

  lemma TextAndRange(p: string, i: nat, w: seq<Letter>, b: Bracket, dotted: bool, es: seq<Elem>)
    requires (forall e <- es :: e != End && EvenSet(e)) && !EndsInLiteral(es) && i < |p| && p[i] !in "?{*"
    requires PlainText(w) && At(p, i, SpellLetters(w)) && AllDigits(b.n) && AllDigits(b.m)
    requires var k := i + |SpellLetters(w)|; var end := k + 3 + |b.n| + |b.m|;
             && end < |p| && p[k] == '[' && NumRangeAt(p, k, ']') == Some(PatternSyntax.Range(Limit(b.n), Limit(b.m), end))
    ensures ElementsFrom(p, i, dotted, es)
            == ElementsFrom(p, i + |SpellLetters(w)| + 3 + |b.n| + |b.m|, dotted,
                            es + UpToRange(w, b))
  {
    hide SpellLetters, Chars, Limit, At, PlainText, AllDigits, NumRangeAt, LiteralAt, ElementsFrom, EndsInLiteral, EvenSet;
    var k := i + |SpellLetters(w)|;
    BracketOpens(p, i, w);
    LiteralThenRange(p, i, Chars(w) + "[", k, dotted, es);
  }

  /** A literal that ends with the bracket of a numeric range, and the range. */
  lemma LiteralThenRange(p: string, i: nat, text: string, k: nat, dotted: bool, es: seq<Elem>)
    requires (forall e <- es :: e != End && EvenSet(e)) && !EndsInLiteral(es) && i < |p| && p[i] !in "?{*"
    requires i <= k < |p| && LiteralAt(p, i) == Some((text, k)) && p[k] == '[' && NumRangeAt(p, k, ']').Some?
    ensures var r := NumRangeAt(p, k, ']').value;
            ElementsFrom(p, i, dotted, es) == ElementsFrom(p, r.end, dotted, es + [Literal(text), NumRange(r.lo, r.up)])
  {
    var r := NumRangeAt(p, k, ']').value;
    var lit, num := Literal(text), NumRange(r.lo, r.up);
    RangeEnds(es, lit, r.lo, r.up);
    assert es + [lit] + [num] == es + [lit, num];
    hide NumRangeAt, ElementsFrom, LiteralAt, EndsInLiteral, SetToken;
    assert TokenAt(p, i, dotted, false) == Token(lit, k) && TokenAt(p, k, dotted, true) == Token(num, r.end);
    hide TokenAt;
    OneElement(p, i, dotted, es, lit, k);
    OneElement(p, k, dotted, es + [lit], num, r.end);
  }

  lemma BracketOpens(p: string, i: nat, w: seq<Letter>)
    requires PlainText(w) && At(p, i, SpellLetters(w)) && i + |SpellLetters(w)| < |p|
    requires p[i + |SpellLetters(w)|] == '[' && NumRangeAt(p, i + |SpellLetters(w)|, ']').Some?
    ensures LiteralAt(p, i) == Some((Chars(w) + "[", i + |SpellLetters(w)|))
  {
    hide NumRangeAt, At, LiteralAt;
    NoRangeThere(p, i, SpellLetters(w));
    LettersRead(p, i, w);
  }

  // ---------------------------------------------------------------------------------
  // Sets and ranges in braces

  lemma ItemRead(p: string, i: nat, item: Item, rest: string, start: nat)
    requires At(p, i, SpellItem(item) + (rest + "}")) && start <= i
    requires match item
             case One(c) => (i == start || c != '}') && !(|rest| > 1 && rest[0] == '-')
             case Span(a, b) => (i == start || a != '}') && b != '}'
    ensures var end := i + |SpellItem(item)|;
            end < |p| && SetAt(p, i, start) == Before(match item case One(c) => [c, c] case Span(a, b) => [a, b], SetAt(p, end, start))
  {
    var all := SpellItem(item) + (rest + "}");
    var n := |SpellItem(item)|;
    assert all[n] == (rest + "}")[0] && (rest != "" ==> all[n + 1] == (rest + "}")[1]);
    AtChar(p, i, all, 0);
    AtChar(p, i, all, n);
    if rest != "" {
      AtChar(p, i, all, n + 1);
    }
    if item.Span? {
      AtChar(p, i, all, 1);
      AtChar(p, i, all, 2);
    }
    hide At;
  }

  lemma ItemsUnfold(p: string, i: nat, items: seq<Item>)
    requires items != [] && At(p, i, SpellItems(items) + "}")
    ensures var item, rest := items[0], SpellItems(items[1..]);
            && At(p, i, SpellItem(item) + (rest + "}")) && At(p, i + |SpellItem(item)|, rest + "}")
            && |SpellItem(item)| > 0 && |SpellItems(items)| == |SpellItem(item)| + |rest|
  {
    hide At, SpellItem;
    var item, rest := items[0], SpellItems(items[1..]);
    assert SpellItems(items) + "}" == SpellItem(item) + (rest + "}");
    hide SpellItems;
    AtParts(p, i, SpellItem(item), rest + "}");
    ItemLength(item);
  }

  lemma ItemLength(item: Item)
    ensures |SpellItem(item)| > 0
  {
  }

  lemma {:induction false} ItemsRead(p: string, i: nat, items: seq<Item>, start: nat)
    requires At(p, i, SpellItems(items) + "}") && start <= i && ItemsOk(items, i == start) && (items == [] ==> start < i)
    ensures SetAt(p, i, start) == Some((Pairs(items), i + |SpellItems(items)| + 1))
    decreases |items|
  {
    hide At, SpellItem;
    if items == [] {
      AtChar(p, i, SpellItems(items) + "}", 0);
    } else {
      hide SetAt;
      ItemsUnfold(p, i, items);
      ItemRead(p, i, items[0], SpellItems(items[1..]), start);
      hide SpellItems;
      ItemsRead(p, i + |SpellItem(items[0])|, items[1..], start);
    }
  }

  /** A numeric range that begins with the set ends with it or within it. */
  lemma BracesAreLocal(p: string, i: nat, t: string)
    requires At(p, i, t) && |t| > 1 && t[|t| - 1] == '}' && NumRangeAt(t, 0, '}') == None
    ensures i < |p| && NumRangeAt(p, i, '}') == None
  {
    AtChar(p, i, t, |t| - 1);
    hide NumRangeAt, AllDigits, Limit;
    if NumRangeAt(p, i, '}').Some? {
      RangeFound(p, i, '}');
      var n, m :| IsRange(p, i, n, m, '}');
      RangeCharsAre(p, i, n, m, '}');
      assert i + 3 + |n| + |m| <= i + |t| - 1;
      IsRangeIn(p, i, t, 0, n, m, '}');
      RangeValue(t, 0, n, m, '}');
    }
  }

  lemma SetOpens(p: string, i: nat, g: Glyph)
    requires g.Set? && WellFormed(g) && At(p, i, Spell(g))
    ensures i + 1 < |p| && p[i] == '{' && (g.negated <==> p[i + 1] == '^')
    ensures At(p, if g.negated then i + 2 else i + 1, SpellItems(g.items) + "}")
    ensures NumRangeAt(p, i, '}') == None
  {
    var opening := if g.negated then "{^" else "{";
    var body := SpellItems(g.items) + "}";
    BracesAreLocal(p, i, Spell(g));
    hide NumRangeAt;
    assert body[0] == SpellItems(g.items)[0];
    AtParts(p, i, opening, body);
    AtChar(p, i, Spell(g), 0);
    AtChar(p, i, Spell(g), 1);
  }

  lemma SetRead(p: string, i: nat, g: Glyph)
    requires g.Set? && WellFormed(g) && At(p, i, Spell(g))
    ensures i < |p| && SetToken(p, i) == Token(Meant(g, true)[0], i + |Spell(g)|)
  {
    SetOpens(p, i, g);
    var k := if g.negated then i + 2 else i + 1;
    hide At, Pairs, SpellItems, SetAt;
    ItemsRead(p, k, g.items, k);
  }

  lemma RangeParts(p: string, i: nat, n: string, m: string)
    requires At(p, i, Spell(Glyph.Range(n, m)))
    ensures |Spell(Glyph.Range(n, m))| == |n| + |m| + 4
    ensures i + |n| + |m| + 3 < |p| && p[i] == '{'
    ensures At(p, i + 1, n) && p[i + 1 + |n|] == p[i + 2 + |n|] == '.'
    ensures At(p, i + 3 + |n|, m) && p[i + 3 + |n| + |m|] == '}'
  {
    var a, c, e := "{", "..", "}";
    assert Spell(Glyph.Range(n, m)) == a + (n + (c + (m + e)));
    hide At, Spell;
    AtFive(p, i, a, n, c, m, e);
    AtChar(p, i, a, 0);
    AtChar(p, i + 1 + |n|, c, 0);
    AtChar(p, i + 1 + |n|, c, 1);
    AtChar(p, i + 3 + |n| + |m|, e, 0);
  }

  lemma RangeRead(p: string, i: nat, g: Glyph, dotted: bool, afterLiteral: bool)
    requires g.Range? && WellFormed(g) && At(p, i, Spell(g))
    ensures i < |p| && TokenAt(p, i, dotted, afterLiteral) == Token(Meant(g, dotted)[0], i + |Spell(g)|)
  {
    hide TokenAt, NumRangeAt, Limit, AllDigits, Spell, At;
    RangeParts(p, i, g.n, g.m);
    AtIs(p, i + 1, g.n);
    AtIs(p, i + 3 + |g.n|, g.m);
    RangeValue(p, i, g.n, g.m, '}');
    BracedRange(p, i, dotted, afterLiteral);
  }

  lemma BracedRange(p: string, i: nat, dotted: bool, afterLiteral: bool)
    requires i < |p| && p[i] == '{' && NumRangeAt(p, i, '}').Some?
    ensures var r := NumRangeAt(p, i, '}').value; TokenAt(p, i, dotted, afterLiteral) == Token(NumRange(r.lo, r.up), r.end + 1)
  {
    hide LiteralToken, SetToken, NumRangeAt;
  }

  lemma WildcardRead(p: string, i: nat, g: Glyph, dotted: bool, afterLiteral: bool)
    requires (g.Question? || g.Star? || g.DoubleStar?) && At(p, i, Spell(g)) && EndsBefore(g, p, i + |Spell(g)|)
    ensures i < |p| && TokenAt(p, i, dotted, afterLiteral) == Token(Meant(g, dotted)[0], i + |Spell(g)|)
  {
    hide LiteralToken, NumRangeAt, SetToken;
    AtChar(p, i, Spell(g), 0);
    if g.DoubleStar? {
      AtChar(p, i, Spell(g), 1);
    }
  }

  lemma WholeSetRead(p: string, i: nat, g: Glyph, dotted: bool, afterLiteral: bool)
    requires g.Set? && WellFormed(g) && At(p, i, Spell(g))
    ensures i < |p| && TokenAt(p, i, dotted, afterLiteral) == Token(Meant(g, dotted)[0], i + |Spell(g)|)
  {
    hide LiteralToken, NumRangeAt, SetToken, SpellItems, Pairs, At, ItemsOk;
    SetRead(p, i, g);
    SetOpens(p, i, g);
  }

  /** A notation other than text, anywhere in a pattern, is read as the element it stands for. */
  lemma TokenRead(p: string, i: nat, g: Glyph, dotted: bool, afterLiteral: bool)
    requires WellFormed(g) && !g.Text? && At(p, i, Spell(g)) && EndsBefore(g, p, i + |Spell(g)|)
    ensures i < |p| && TokenAt(p, i, dotted, afterLiteral) == Token(Meant(g, dotted)[0], i + |Spell(g)|)
  {
    hide TokenAt, At, EndsBefore, Meant, Spell, WellFormed;
    if g.Set? {
      WholeSetRead(p, i, g, dotted, afterLiteral);
    } else if g.Range? {
      RangeRead(p, i, g, dotted, afterLiteral);
    } else {
      WildcardRead(p, i, g, dotted, afterLiteral);
    }
  }

  // ---------------------------------------------------------------------------------
  // Whole patterns

  lemma NotEmpty(g: Glyph)
    requires WellFormed(g)
    ensures Spell(g) != "" && (g.Text? <==> Spell(g)[0] !in "?{*") && (g.Star? || g.DoubleStar? <==> Spell(g)[0] == '*')
  {
    if g.Text? {
      TextStarts(g.w, g.more);
    }
  }

  function SpellAll(gs: seq<Glyph>): string {
    if gs == [] then "" else Spell(gs[0]) + SpellAll(gs[1..])
  }

  function MeantAll(gs: seq<Glyph>, dotted: bool): (es: seq<Elem>)
    requires forall g <- gs :: WellFormed(g)
    ensures forall e <- es :: e != End && EvenSet(e)
  {
    if gs == [] then []
    else
      assert WellFormed(gs[0]);
      Meant(gs[0], dotted) + MeantAll(gs[1..], dotted)
  }

  /** Text is written in one piece, and a star does not stand before another one. */
  predicate Apart(gs: seq<Glyph>, i: nat)
    requires i + 1 < |gs|
  {
    !(gs[i].Text? && gs[i + 1].Text?) && !(gs[i].Star? && (gs[i + 1].Star? || gs[i + 1].DoubleStar?))
  }

  predicate Written(gs: seq<Glyph>) {
    (forall g <- gs :: WellFormed(g)) && forall i: nat :: i < |gs| - 1 ==> Apart(gs, i)
  }

  /** What may come behind the notations without changing the last one. */
  predicate MayFollow(gs: seq<Glyph>, tail: string) {
    tail == "" || gs == [] ||
    (match gs[|gs| - 1] case Text(_, _) => tail[0] in "?{*" case Star => tail[0] != '*' case _ => true)
  }

  lemma FirstOfRest(gs: seq<Glyph>, tail: string, p: string, i: nat)
    requires Written(gs) && MayFollow(gs, tail) && gs != [] && i <= |p| && p[i..] == SpellAll(gs) + tail
    ensures WellFormed(gs[0]) && Written(gs[1..]) && MayFollow(gs[1..], tail)
    ensures At(p, i, Spell(gs[0])) && p[i + |Spell(gs[0])|..] == SpellAll(gs[1..]) + tail
    ensures EndsBefore(gs[0], p, i + |Spell(gs[0])|)
  {
    hide WellFormed, Spell;
    var s, more := Spell(gs[0]), gs[1..];
    assert SpellAll(gs) + tail == s + (SpellAll(more) + tail);
    assert p[i..][..|s|] == s && p[i..][|s|..] == SpellAll(more) + tail;
    assert p[i..i + |s|] == s;
    forall k: nat | k < |more| - 1 ensures Apart(more, k) {
      assert Apart(gs, k + 1);
    }
    if more != [] {
      assert Apart(gs, 0);
      assert WellFormed(more[0]);
      NotEmpty(more[0]);
      assert SpellAll(more)[0] == Spell(more[0])[0];
    }
    if SpellAll(more) + tail != "" {
      assert p[i + |s|..][0] == p[i + |s|];
    }
  }

  lemma OneElement(p: string, i: nat, dotted: bool, es: seq<Elem>, e: Elem, end: nat)
    requires i <= end <= |p| && (i == end ==> EndsInLiteral(es + [e]) && !EndsInLiteral(es)) && i < |p| && (forall x <- es :: x != End && EvenSet(x)) && e != End && EvenSet(e)
    requires TokenAt(p, i, dotted, EndsInLiteral(es)) == Token(e, end)
    ensures ElementsFrom(p, i, dotted, es) == ElementsFrom(p, end, dotted, es + [e])
  {
    hide TokenAt;
  }

  lemma MeantStep(es: seq<Elem>, gs: seq<Glyph>, dotted: bool)
    requires gs != [] && forall g <- gs :: WellFormed(g)
    ensures WellFormed(gs[0]) && (forall g <- gs[1..] :: WellFormed(g))
    ensures es + MeantAll(gs, dotted) == (es + Meant(gs[0], dotted)) + MeantAll(gs[1..], dotted)
  {
  }

  /** One notation is read as the elements it stands for. */
  lemma GlyphRead(p: string, i: nat, g: Glyph, dotted: bool, es: seq<Elem>)
    requires (forall x <- es :: x != End && EvenSet(x)) && (g.Text? ==> !EndsInLiteral(es))
    requires WellFormed(g) && At(p, i, Spell(g)) && EndsBefore(g, p, i + |Spell(g)|)
    ensures i + |Spell(g)| <= |p| && |Spell(g)| > 0
    ensures ElementsFrom(p, i, dotted, es) == ElementsFrom(p, i + |Spell(g)|, dotted, es + Meant(g, dotted))
  {
    hide SpellText, MeantText, EndsBefore, EvenSet, EndsInLiteral, ElementsFrom, At, PlainText, NumRangeAt, ItemsOk, SpellItems, Pairs;
    NotEmpty(g);
    if g.Text? {
      assert Meant(g, dotted) == MeantText(g.w, g.more) && Spell(g) == SpellText(g.w, g.more) && g == Text(g.w, g.more);
      hide WellFormed, Meant, Spell;
      TextRead(p, i, g.w, g.more, dotted, es);
    } else {
      TokenRead(p, i, g, dotted, EndsInLiteral(es));
      OneMeant(g, dotted);
      hide TokenAt, Spell, EndsBefore, EvenSet, EndsInLiteral, ElementsFrom, WellFormed, Meant, At;
      OneElement(p, i, dotted, es, Meant(g, dotted)[0], i + |Spell(g)|);
    }
  }

  lemma OneMeant(g: Glyph, dotted: bool)
    requires WellFormed(g) && !g.Text?
    ensures Meant(g, dotted) == [Meant(g, dotted)[0]] && Meant(g, dotted)[0] in Meant(g, dotted)
  {
  }

  lemma LiteralEndStays(es: seq<Elem>, g: Glyph, dotted: bool)
    requires WellFormed(g)
    ensures EndsInLiteral(es + Meant(g, dotted)) <==> g.Text?
  {
    var all := es + Meant(g, dotted);
    assert all[|all| - 1] == Meant(g, dotted)[|Meant(g, dotted)| - 1];
  }

  lemma {:induction false} ElementsRead(p: string, i: nat, gs: seq<Glyph>, tail: string, dotted: bool, es: seq<Elem>)
    requires Written(gs) && MayFollow(gs, tail) && (forall e <- es :: e != End && EvenSet(e))
    requires i <= |p| && p[i..] == SpellAll(gs) + tail && (gs != [] && gs[0].Text? ==> !EndsInLiteral(es))
    ensures i + |SpellAll(gs)| + |tail| == |p|
    ensures forall e <- es + MeantAll(gs, dotted) :: e != End && EvenSet(e)
    ensures ElementsFrom(p, i, dotted, es) == ElementsFrom(p, |p| - |tail|, dotted, es + MeantAll(gs, dotted))
    decreases |gs|
  {
    hide At, Spell, Meant, EndsBefore, EvenSet, ElementsFrom, EndsInLiteral, WellFormed, MayFollow;
    if gs == [] {
      assert es + MeantAll(gs, dotted) == es;
    } else {
      FirstOfRest(gs, tail, p, i);
      MeantStep(es, gs, dotted);
      hide SpellAll, MeantAll;
      GlyphRead(p, i, gs[0], dotted, es);
      LiteralEndStays(es, gs[0], dotted);
      assert |gs| > 1 ==> Apart(gs, 0);
      ElementsRead(p, i + |Spell(gs[0])|, gs[1..], tail, dotted, es + Meant(gs[0], dotted));
    }
  }

  /** Whatever is written in the documented notations is compiled into what they stand for. */
  lemma CompilingInvertsSpelling(gs: seq<Glyph>, dotted: bool, full: bool)
    requires Written(gs)
    ensures Compile(SpellAll(gs), dotted, full)
            == Elements(if full then MeantAll(gs, dotted) else Wrapped(MeantAll(gs, dotted)))
  {
    var p := SpellAll(gs);
    assert p[0..] == p + "" && [] + MeantAll(gs, dotted) == MeantAll(gs, dotted);
    assert !EndsInLiteral([]);
    ElementsRead(p, 0, gs, "", dotted, []);
  }

  // ---------------------------------------------------------------------------------
  // Errors

  lemma {:induction false} NoLaterBrace(items: seq<Item>, first: bool, k: nat)
    requires ItemsOk(items, first) && k < |SpellItems(items)| && (first ==> k > 0)
    ensures SpellItems(items)[k] != '}'
    decreases |items|
  {
    if k >= |SpellItem(items[0])| {
      NoLaterBrace(items[1..], false, k - |SpellItem(items[0])|);
    }
  }

  lemma UnclosedItem(p: string, i: nat, item: Item, rest: string, start: nat)
    requires i <= |p| && p[i..] == SpellItem(item) + rest && start <= i
    requires match item
             case One(c) => (i == start || c != '}') && !(|rest| > 1 && rest[0] == '-')
             case Span(a, b) => (i == start || a != '}') && b != '}'
    ensures var end := i + |SpellItem(item)|; end <= |p| && p[end..] == rest && end > i
    ensures SetAt(p, i + |SpellItem(item)|, start) == None ==> SetAt(p, i, start) == None
  {
    var n := |SpellItem(item)|;
    assert forall k: nat :: k < |p| - i ==> p[i..][k] == p[i + k];
    assert p[i..][n..] == rest;
  }

  lemma {:induction false} UnclosedItems(p: string, i: nat, items: seq<Item>, start: nat)
    requires i <= |p| && p[i..] == SpellItems(items) && start <= i && ItemsOk(items, i == start)
    ensures SetAt(p, i, start) == None
    decreases |items|
  {
    if items != [] {
      UnclosedItem(p, i, items[0], SpellItems(items[1..]), start);
      hide SetAt, SpellItem;
      UnclosedItems(p, i + |SpellItem(items[0])|, items[1..], start);
    }
  }

  /** A set without its closing brace is not a numeric range either. */
  lemma UnclosedIsNoRange(p: string, i: nat, items: seq<Item>)
    requires i < |p| && p[i + 1..] == SpellItems(items) && ItemsOk(items, true)
    ensures NumRangeAt(p, i, '}') == None
  {
    hide NumRangeAt, SpellItems, ItemsOk, AllDigits, Limit;
    if NumRangeAt(p, i, '}').Some? {
      RangeFound(p, i, '}');
      var n, m :| IsRange(p, i, n, m, '}');
      var k := 2 + |n| + |m|;
      assert p[i + 1..][k] == '}';
      NoLaterBrace(items, true, k);
    }
  }

  lemma UnclosedToken(p: string, i: nat, negated: bool, items: seq<Item>, dotted: bool, afterLiteral: bool)
    requires i <= |p| && p[i..] == (if negated then "{^" else "{") + SpellItems(items) && ItemsOk(items, true)
    requires !negated && items != [] ==> SpellItems(items)[0] != '^'
    ensures i < |p| && p[i] == '{' && TokenAt(p, i, dotted, afterLiteral) == NoClosing
  {
    var k := if negated then i + 2 else i + 1;
    assert forall j: nat :: j < |p| - i ==> p[i..][j] == p[i + j];
    assert p[i..][k - i..] == p[k..] == SpellItems(items);
    hide SpellItems;
    UnclosedItems(p, k, items, k);
    if negated {
      hide SetAt;
    } else {
      UnclosedIsNoRange(p, i, items);
      hide NumRangeAt, SetAt;
    }
  }

  /** A set that is not closed is an error, whatever is written before it. */
  lemma UnclosedSetIsError(gs: seq<Glyph>, negated: bool, items: seq<Item>, dotted: bool, full: bool)
    requires Written(gs) && ItemsOk(items, true) && (!negated && items != [] ==> SpellItems(items)[0] != '^')
    ensures Compile(SpellAll(gs) + ((if negated then "{^" else "{") + SpellItems(items)), dotted, full) == Unmatched
  {
    hide SpellItems, ItemsOk, SpellAll, MeantAll, TokenAt;
    var tail := (if negated then "{^" else "{") + SpellItems(items);
    var p := SpellAll(gs) + tail;
    assert p[0..] == p && !EndsInLiteral([]);
    ElementsRead(p, 0, gs, tail, dotted, []);
    assert p[|p| - |tail|..] == tail;
    UnclosedToken(p, |p| - |tail|, negated, items, dotted, EndsInLiteral([] + MeantAll(gs, dotted)));
  }

  lemma {:induction false} LettersPastEnd(p: string, i: nat, w: seq<Letter>)
    requires Guarded(w) && At(p, i, SpellLetters(w)) && i + |SpellLetters(w)| + 1 == |p| && p[|p| - 1] == '\\'
    requires NoRangeIn(p, i, |p| - 1)
    ensures LiteralAt(p, i) == None
    decreases |w|
  {
    hide NumRangeAt, At, NoRangeIn, LiteralAt;
    if w == [] {
      LiteralEnds(p, i);
    } else {
      LettersUnfold(p, i, w);
      hide SpellLetters, SpellLetter, Guarded;
      LetterRead(p, i, w[0]);
      LettersPastEnd(p, i + |SpellLetter(w[0])|, w[1..]);
    }
  }

  /** A backslash at the very end of a text is one too: there is no character to read after it. */
  lemma TrailingBackslashIsError(gs: seq<Glyph>, w: seq<Letter>, dotted: bool, full: bool)
    requires Written(gs) && (gs == [] || !gs[|gs| - 1].Text?) && PlainText(w)
    ensures Compile(SpellAll(gs) + (SpellLetters(w) + "\\"), dotted, full) == PastEnd
  {
    hide SpellAll, MeantAll, NumRangeAt, At, LiteralAt, SetToken, NoRangeIn;
    var tail := SpellLetters(w) + "\\";
    var p := SpellAll(gs) + tail;
    var i := |SpellAll(gs)|;
    FirstIsNoWildcard(w);
    assert p[0..] == p && !EndsInLiteral([]);
    ElementsRead(p, 0, gs, tail, dotted, []);
    IsAt(p, i, SpellLetters(w));
    NoRangeThere(p, i, SpellLetters(w));
    LettersPastEnd(p, i, w);
    LiteralEndsWritten(gs, dotted);
    hide Written, PlainText, SpellLetters;
    assert p[i] == tail[0];
    assert TokenAt(p, i, dotted, EndsInLiteral([] + MeantAll(gs, dotted))) == NoChar;
  }

  lemma IsAt(p: string, i: nat, t: string)
    requires i + |t| <= |p| && p[i..i + |t|] == t
    ensures At(p, i, t)
  {
  }

  lemma FirstIsNoWildcard(w: seq<Letter>)
    requires Guarded(w)
    ensures (SpellLetters(w) + "\\")[0] !in "?{*"
  {
    assert w != [] ==> w[0] in w;
  }

  /** After anything but text the elements do not end in a literal. */
  lemma LiteralEndsWritten(gs: seq<Glyph>, dotted: bool)
    requires Written(gs) && (gs == [] || !gs[|gs| - 1].Text?)
    ensures !EndsInLiteral([] + MeantAll(gs, dotted))
  {
    if gs != [] {
      LastMeant(gs, dotted);
    }
  }

  lemma {:induction false} LastMeant(gs: seq<Glyph>, dotted: bool)
    requires gs != [] && forall g <- gs :: WellFormed(g)
    ensures MeantAll(gs, dotted) != [] && (EndsInLiteral(MeantAll(gs, dotted)) <==> gs[|gs| - 1].Text?)
    decreases |gs|
  {
    hide Meant, WellFormed;
    var rest := gs[1..];
    assert WellFormed(gs[0]) && forall g <- rest :: g in gs;
    if rest == [] {
      assert MeantAll(gs, dotted) == Meant(gs[0], dotted);
    } else {
      LastMeant(rest, dotted);
      var all := MeantAll(gs, dotted);
      assert all[|all| - 1] == MeantAll(rest, dotted)[|MeantAll(rest, dotted)| - 1];
    }
  }
}
