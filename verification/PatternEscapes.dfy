/** When a backslash before each special character makes a text match exactly itself. */
module PatternEscapes {
  import opened Basics
  import opened PatternMeaning
  import opened PatternSyntax

  predicate Special(c: char) {
    c in "?*{\\["
  }

  predicate Plain(t: string) {
    forall c <- t :: !Special(c)
  }

  /** The text with a backslash before each character that has a special meaning. */
  function Marked(w: string): string {
    if w == "" then "" else (if Special(w[0]) then ['\\', w[0]] else [w[0]]) + Marked(w[1..])
  }

  /** A bracket at i that opens a numeric range. */
  predicate OpensRange(w: string, i: nat)
    requires i < |w|
  {
    w[i] == '[' && NumRangeAt(w, i, ']').Some?
  }

  lemma {:induction false} MarkedPlain(t: string, u: string)
    requires Plain(t)
    ensures Marked(t + u) == t + Marked(u)
  {
    if t == "" {
      assert t + u == u;
    } else {
      assert t[0] in t && (t + u)[1..] == t[1..] + u;
      MarkedPlain(t[1..], u);
    }
  }

  lemma {:induction false} PlainStart(t: string, u: string)
    requires Plain(t) && |t| <= |Marked(u)| && Marked(u)[..|t|] == t
    ensures |t| <= |u| && u[..|t|] == t && Marked(u)[|t|..] == Marked(u[|t|..])
    decreases |t|
  {
    if t == "" {
      assert u[0..] == u && Marked(u)[0..] == Marked(u);
    } else {
      assert t[0] in t && Marked(u)[..|t|][0] == t[0] == Marked(u)[0];
      assert u != "" && !Special(u[0]) && Marked(u) == [u[0]] + Marked(u[1..]);
      assert Marked(u)[..|t|][1..] == Marked(u[1..])[..|t[1..]|];
      PlainStart(t[1..], u[1..]);
      assert u[1..][|t[1..]|..] == u[|t|..] && Marked(u)[|t|..] == Marked(u[1..])[|t[1..]|..];
      assert u[..|t|] == [u[0]] + u[1..][..|t[1..]|];
    }
  }

  function RangeText(n: string, m: string): string {
    n + ".." + m + "]"
  }

  lemma RangeTextPlain(n: string, m: string)
    requires AllDigits(n) && AllDigits(m)
    ensures Plain(RangeText(n, m))
  {
    forall c | c in RangeText(n, m) ensures !Special(c) {
      assert IsDigit(c) || c == '.' || c == ']';
    }
  }

  lemma RangeTextParts(n: string, m: string)
    ensures var t := RangeText(n, m);
            && |t| == |n| + |m| + 3 && t[..|n|] == n && t[|n|] == t[|n| + 1] == '.'
            && t[|n| + 2..|n| + 2 + |m|] == m && t[|n| + 2 + |m|] == ']'
  {
  }

  lemma RangeAsText(p: string, i: nat, n: string, m: string)
    requires i < |p| && AllDigits(n) && AllDigits(m)
    ensures IsRange(p, i, n, m, ']') <==> |RangeText(n, m)| <= |p| - i - 1 && p[i + 1..][..|RangeText(n, m)|] == RangeText(n, m)
  {
    var t := RangeText(n, m);
    if |t| <= |p| - i - 1 && p[i + 1..][..|t|] == t {
      var q := p[i + 1..][..|t|];
      assert q == p[i + 1..i + 1 + |t|];
      RangeTextParts(n, m);
      assert q[..|n|] == p[i + 1..i + 1 + |n|];
      assert q[|n| + 2..|n| + 2 + |m|] == p[i + 3 + |n|..i + 3 + |n| + |m|];
      assert q[|n|] == p[i + 1 + |n|] && q[|n| + 1] == p[i + 2 + |n|] && q[|n| + 2 + |m|] == p[i + 3 + |n| + |m|];
    }
    if IsRange(p, i, n, m, ']') {
      var q := p[i + 1..][..|t|];
      assert q[..|n|] == p[i + 1..i + 1 + |n|] && q[|n| + 2..|n| + 2 + |m|] == p[i + 3 + |n|..i + 3 + |n| + |m|];
      assert q[|n|..|n| + 2] == ".." && q[|n| + 2 + |m|..] == "]";
      assert q == q[..|n|] + q[|n|..|n| + 2] + q[|n| + 2..|n| + 2 + |m|] + q[|n| + 2 + |m|..];
    }
  }

  /** Escaping keeps the ranges: a range after a bracket of the pattern is one of the text. */
  lemma SameRanges(p: string, j: nat, w: string, k: nat, n: string, m: string)
    requires j < |p| && k < |w| && p[j + 1..] == Marked(w[k + 1..]) && AllDigits(n) && AllDigits(m)
    ensures IsRange(p, j, n, m, ']') <==> IsRange(w, k, n, m, ']')
  {
    var t, u := RangeText(n, m), w[k + 1..];
    RangeTextPlain(n, m);
    RangeAsText(p, j, n, m);
    RangeAsText(w, k, n, m);
    hide RangeText, IsRange, Plain;
    if |t| <= |Marked(u)| && Marked(u)[..|t|] == t {
      PlainStart(t, u);
    }
    if |t| <= |u| && u[..|t|] == t {
      assert u == t + u[|t|..];
      MarkedPlain(t, u[|t|..]);
    }
  }

  lemma SameOpening(p: string, j: nat, w: string, k: nat)
    requires j < |p| && k < |w| && p[j + 1..] == Marked(w[k + 1..])
    ensures NumRangeAt(p, j, ']').Some? <==> NumRangeAt(w, k, ']').Some?
  {
    RangeExactlyWhen(p, j, ']');
    RangeExactlyWhen(w, k, ']');
    forall n, m | AllDigits(n) && AllDigits(m) ensures IsRange(p, j, n, m, ']') <==> IsRange(w, k, n, m, ']') {
      SameRanges(p, j, w, k, n, m);
    }
  }

  lemma MarkedStep(p: string, i: nat, w: string, k: nat)
    requires i <= |p| && k < |w| && p[i..] == Marked(w[k..])
    ensures i < |p| && (if Special(w[k]) then i + 1 < |p| && p[i] == '\\' && p[i + 1] == w[k] else p[i] == w[k])
    ensures var j := if Special(w[k]) then i + 1 else i; p[j + 1..] == Marked(w[k + 1..])
  {
    var u := w[k..];
    assert u[0] == w[k] && u[1..] == w[k + 1..];
    var j := if Special(w[k]) then i + 1 else i;
    assert p[i..][0] == p[i] && (Special(w[k]) ==> p[i..][1] == p[i + 1]);
    assert p[j + 1..] == p[i..][j + 1 - i..];
  }

  /** One character of the text, as it stands in the pattern, is read into the literal. */
  lemma CharacterRead(p: string, i: nat, w: string, k: nat) returns (at: nat)
    requires i <= |p| && k < |w| && p[i..] == Marked(w[k..])
    ensures i <= at < |p| && p[at] == w[k] && p[at + 1..] == Marked(w[k + 1..])
    ensures if OpensRange(w, k) then LiteralAt(p, i) == Some(([w[k]], at)) else LiteralAt(p, i) == Before([w[k]], LiteralAt(p, at + 1))
    ensures p[at] == '[' ==> i < at
  {
    MarkedStep(p, i, w, k);
    at := if Special(w[k]) then i + 1 else i;
    SameOpening(p, at, w, k);
    LiteralStep(p, i, at);
    hide LiteralAt, NumRangeAt, Marked;
  }

  /** The literal goes on to the end if no bracket opens a range. */
  lemma {:induction false} WholeLiteral(p: string, i: nat, w: string, k: nat)
    requires i <= |p| && k <= |w| && p[i..] == Marked(w[k..])
    requires forall q: nat | k <= q < |w| :: !OpensRange(w, q)
    ensures LiteralAt(p, i) == Some((w[k..], |p|))
    decreases |w| - k
  {
    if k < |w| {
      hide LiteralAt, OpensRange, Marked;
      var at := CharacterRead(p, i, w, k);
      WholeLiteral(p, at + 1, w, k + 1);
      assert w[k..] == [w[k]] + w[k + 1..];
    } else {
      assert w[k..] == "" && i == |p|;
    }
  }

  /** Otherwise it ends with the first bracket that does, and the pattern goes on there. */
  lemma {:induction false} LiteralUpTo(p: string, i: nat, w: string, k: nat, f: nat) returns (j: nat)
    requires i <= |p| && k <= f < |w| && p[i..] == Marked(w[k..]) && OpensRange(w, f)
    requires forall q: nat | k <= q < f :: !OpensRange(w, q)
    ensures i < j < |p| && LiteralAt(p, i) == Some((w[k..f + 1], j))
    ensures p[j] == '[' && p[j + 1..] == Marked(w[f + 1..])
    decreases f - k
  {
    hide LiteralAt, Marked, NumRangeAt;
    var at := CharacterRead(p, i, w, k);
    if k == f {
      j := at;
      assert w[k..f + 1] == [w[k]];
    } else {
      j := LiteralUpTo(p, at + 1, w, k + 1, f);
      assert w[k..f + 1] == [w[k]] + w[k + 1..f + 1];
    }
  }

  /** What has been read stays at the front. */
  lemma {:induction false} ReadStays(p: string, i: nat, dotted: bool, es: seq<Elem>)
    requires i <= |p| && forall e <- es :: e != End && EvenSet(e)
    ensures ElementsFrom(p, i, dotted, es).Elements? ==> es <= ElementsFrom(p, i, dotted, es).es
    decreases |p| - i, !EndsInLiteral(es)
  {
    if i < |p| {
      var t := TokenAt(p, i, dotted, EndsInLiteral(es));
      hide TokenAt;
      if t.Token? {
        ReadStays(p, t.end, dotted, es + [t.e]);
      }
    }
  }

  /** No line that begins with a text, a range's own "n.." after it, is that text, a number and a
      closing bracket. */
  lemma NumberNotRange(w: string, f: nat, n: string, m: string, d: string, tail: string)
    requires f < |w| && IsRange(w, f, n, m, ']') && AllDigits(d) && d != "" && tail != "" && tail[0] == ']'
    ensures w != w[..f + 1] + (d + tail)
  {
    var w' := w[..f + 1] + (d + tail);
    assert w[f + 1 + |n|] == '.' && w'[f + 1 + |d|] == tail[0];
    if |d| < |n| {
      assert w[f + 1 + |d|] == w[f + 1..f + 1 + |n|][|d|] == n[|d|];
      assert IsDigit(n[|d|]);
    } else if |d| > |n| {
      assert w'[f + 1 + |n|] == d[|n|];
      assert IsDigit(d[|n|]);
    }
  }

  lemma RangeNotMatched(w: string, f: nat, n: string, m: string, es: seq<Elem>)
    requires f < |w| && IsRange(w, f, n, m, ']') && |es| >= 3
    requires es[0] == Literal(w[..f + 1]) && es[1].NumRange? && es[2].Literal? && es[2].text != "" && es[2].text[0] == ']'
    ensures !Denotes(es, w, "")
  {
    if Denotes(es, w, "") {
      var pieces :| Split(es, pieces, "") && Joined(pieces) == w;
      var e1, e2, p1, p2 := es[1..], es[2..], pieces[1..], pieces[2..];
      assert e1[1..] == e2 && p1[1..] == p2 && e1[0] == es[1] && p1[0] == pieces[1] && e2[0] == es[2] && p2[0] == pieces[2];
      assert Split(e1, p1, "") && Split(e2, p2, "");
      var tail := Joined(p2);
      assert tail == pieces[2] + Joined(p2[1..]) && tail[0] == ']';
      assert w == pieces[0] + (pieces[1] + tail);
      NumberNotRange(w, f, n, m, pieces[1], tail);
      assert false;
    }
  }

  /** The first three tokens when a bracket opens a range. */
  lemma RangeRemains(w: string, dotted: bool, f: nat)
    requires f < |w| && OpensRange(w, f) && forall q: nat | q < f :: !OpensRange(w, q)
    requires Compile(Marked(w), dotted, true).Elements?
    ensures var es := Compile(Marked(w), dotted, true).es;
            && |es| >= 3 && es[0] == Literal(w[..f + 1]) && es[1].NumRange?
            && es[2].Literal? && es[2].text != "" && es[2].text[0] == ']'
  {
    var p := Marked(w);
    assert p[0..] == p && w[0..] == w;
    var j := LiteralUpTo(p, 0, w, 0, f);
    assert w[0..f + 1] == w[..f + 1];
    SameOpening(p, j, w, f);
    var r := NumRangeAt(p, j, ']').value;
    MarkedStep(p, 0, w, 0);
    var l, e := Literal(w[..f + 1]), NumRange(r.lo, r.up);
    FirstTokens(p, dotted, l, j, e, r.end);
  }

  lemma ReadsLiteral(p: string, dotted: bool, l: Elem, j: nat)
    requires 0 < j <= |p| && p[0] !in "?{*" && l.Literal? && LiteralAt(p, 0) == Some((l.text, j))
    ensures TokenAt(p, 0, dotted, false) == Token(l, j)
  {
    hide LiteralAt, NumRangeAt;
  }

  lemma ClosingIsRead(p: string, dotted: bool, i: nat)
    requires i < |p| && p[i] == ']'
    ensures var t := TokenAt(p, i, dotted, false); t.Token? ==> t.e.Literal? && t.e.text != "" && t.e.text[0] == ']'
  {
    hide NumRangeAt;
    LiteralStep(p, i, i);
    if LiteralAt(p, i).Some? {
      assert LiteralAt(p, i).value.0[0] == ']';
    }
  }

  lemma FirstTokens(p: string, dotted: bool, l: Elem, j: nat, e: Elem, b: nat)
    requires 0 < j < |p| && p[0] !in "?{*" && l.Literal? && LiteralAt(p, 0) == Some((l.text, j)) && p[j] == '['
    requires e.NumRange? && NumRangeAt(p, j, ']') == Some(Range(e.lo, e.up, b)) && Compile(p, dotted, true).Elements?
    ensures var es := Compile(p, dotted, true).es;
            && |es| >= 3 && es[0] == l && es[1] == e && es[2].Literal? && es[2].text != "" && es[2].text[0] == ']'
  {
    ReadsLiteral(p, dotted, l, j);
    assert TokenAt(p, j, dotted, true) == Token(e, b);
    ClosingIsRead(p, dotted, b);
    hide TokenAt, NumRangeAt, LiteralAt;
    var t := TokenAt(p, b, dotted, false);
    assert [] + [l] == [l] && [l] + [e] == [l, e];
    assert ElementsFrom(p, 0, dotted, []) == ElementsFrom(p, j, dotted, [l]) == ElementsFrom(p, b, dotted, [l, e]);
    assert t.Token?;
    var es := [l, e] + [t.e];
    assert ElementsFrom(p, b, dotted, [l, e]) == ElementsFrom(p, t.end, dotted, es);
    ReadStays(p, t.end, dotted, es);
  }

  /** With a backslash before each ?, *, {, [ and backslash, a text matches exactly itself if and
      only if none of its brackets opens a numeric range. */
  lemma MarkingIsExactlyWhen(w: string, dotted: bool)
    ensures var r := Compile(Marked(w), dotted, true);
            (r.Elements? && forall line :: Denotes(r.es, line, "") <==> line == w)
            <==> forall i: nat | i < |w| :: !OpensRange(w, i)
  {
    var p := Marked(w);
    assert p[0..] == p && w[0..] == w;
    if forall i: nat | i < |w| :: !OpensRange(w, i) {
      WholeLiteral(p, 0, w, 0);
      if w != "" {
        MarkedStep(p, 0, w, 0);
      }
      SingleLiteral(p, dotted, w);
    } else {
      var f := FirstOpening(w);
      if Compile(p, dotted, true).Elements? {
        RangeRemains(w, dotted, f);
        RangeExactlyWhen(w, f, ']');
        var n, m :| IsRange(w, f, n, m, ']');
        RangeNotMatched(w, f, n, m, Compile(p, dotted, true).es);
      }
    }
  }

  lemma FirstOpening(w: string) returns (f: nat)
    requires exists i: nat | i < |w| :: OpensRange(w, i)
    ensures f < |w| && OpensRange(w, f) && forall q: nat | q < f :: !OpensRange(w, q)
  {
    f := 0;
    while !OpensRange(w, f)
      invariant f < |w| && forall q: nat | q < f :: !OpensRange(w, q)
      decreases |w| - f
    {
      f := f + 1;
    }
  }
}
