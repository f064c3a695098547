/** What a glob pattern means, once it is a list of elements. */
module PatternMeaning {
  /** The end of the pattern is an element of its own, as in the compiled vector. */
  datatype Elem =
    | Literal(text: string) | AnyChar | CommonChar | InSet(pairs: string) | NotInSet(pairs: string)
    | NumRange(lo: int, up: int) | AnySeq | CommonSeq | End

  const LONG_MAX := 0x7fff_ffff_ffff_ffff

  // ---------------------------------------------------------------------------------
  // What a list of elements means

  predicate IsDigit(c: char) {
    '0' <= c <= '9'
  }

  predicate AllDigits(s: string) {
    forall c <- s :: IsDigit(c)
  }

  function Value(digits: string): nat
    requires AllDigits(digits)
  {
    if digits == "" then 0
    else
      var last := digits[|digits| - 1];
      assert IsDigit(last);
      10 * Value(digits[..|digits| - 1]) + (last as int - '0' as int)
  }

  /** Numbers beyond the range of long are read as its largest value. */
  function Atol(digits: string): nat
    requires AllDigits(digits)
  {
    if Value(digits) > LONG_MAX then LONG_MAX else Value(digits)
  }

  predicate InRange(n: int, lo: int, up: int) {
    !(lo >= 0 && n < lo) && !(up >= 0 && n > up)
  }

  predicate PairHas(pairs: string, k: nat, c: char)
    requires 2 * k + 1 < |pairs|
  {
    pairs[2 * k] <= c <= pairs[2 * k + 1]
  }

  /** The set is written as the ends of its ranges. */
  predicate Contains(pairs: string, c: char) {
    exists k: nat :: k < |pairs| / 2 && PairHas(pairs, k, c)
  }

  /** Whether an element stands for a piece of the line that is followed by `rest`. */
  predicate Fits(e: Elem, piece: string, rest: string) {
    match e
    case Literal(text) => piece == text
    case AnyChar => |piece| == 1
    case CommonChar => |piece| == 1 && piece[0] != '.'
    case InSet(pairs) => |piece| == 1 && Contains(pairs, piece[0])
    case NotInSet(pairs) => |piece| == 1 && !Contains(pairs, piece[0])
    case NumRange(lo, up) => piece != "" && AllDigits(piece) && (rest == "" || !IsDigit(rest[0])) && InRange(Atol(piece), lo, up)
    case AnySeq => true
    case CommonSeq => '.' !in piece
    case End => false
  }

  function Joined(pieces: seq<string>): string {
    if pieces == [] then "" else pieces[0] + Joined(pieces[1..])
  }

  predicate Split(es: seq<Elem>, pieces: seq<string>, rest: string) {
    && |es| == |pieces|
    && (es == [] || (Fits(es[0], pieces[0], Joined(pieces[1..]) + rest) && Split(es[1..], pieces[1..], rest)))
  }

  /** The line can be cut into one piece for each element, in order. */
  ghost predicate Denotes(es: seq<Elem>, line: string, rest: string) {
    exists pieces :: Split(es, pieces, rest) && Joined(pieces) == line
  }

  /** The cut after the first piece. */
  predicate FirstCut(e: Elem, line: string, rest: string, i: nat)
    requires i <= |line|
  {
    Fits(e, line[..i], line[i..] + rest)
  }

  lemma DenotesCut(e: Elem, es: seq<Elem>, line: string, rest: string)
    ensures Denotes([e] + es, line, rest) <==> exists i: nat :: i <= |line| && FirstCut(e, line, rest, i) && Denotes(es, line[i..], rest)
  {
    assert ([e] + es)[1..] == es;
    if Denotes([e] + es, line, rest) {
      var pieces :| Split([e] + es, pieces, rest) && Joined(pieces) == line;
      var i := |pieces[0]|;
      assert line[..i] == pieces[0] && line[i..] == Joined(pieces[1..]);
      assert FirstCut(e, line, rest, i);
    }
    if i: nat :| i <= |line| && FirstCut(e, line, rest, i) && Denotes(es, line[i..], rest) {
      var more :| Split(es, more, rest) && Joined(more) == line[i..];
      var pieces := [line[..i]] + more;
      assert pieces[1..] == more && line == line[..i] + line[i..];
      assert Split([e] + es, pieces, rest);
    }
  }

  lemma DenotesNothing(line: string, rest: string)
    ensures Denotes([], line, rest) <==> line == ""
  {
    if line == "" {
      assert Split([], [], rest) && Joined([]) == line;
    }
  }

  /** Sets are stored as pairs. */
  predicate EvenSet(e: Elem) {
    match e
    case InSet(pairs) => |pairs| % 2 == 0
    case NotInSet(pairs) => |pairs| % 2 == 0
    case _ => true
  }

  function DigitsEnd(s: string, i: nat): (e: nat)
    requires i <= |s|
    ensures i <= e <= |s| && AllDigits(s[i..e]) && (e < |s| ==> !IsDigit(s[e]))
    decreases |s| - i
  {
    if i < |s| && IsDigit(s[i]) then
      var e := DigitsEnd(s, i + 1);
      assert s[i..e] == [s[i]] + s[i + 1..e];
      e
    else i
  }

  // ---------------------------------------------------------------------------------
  // Substring mode

  lemma {:induction false} JoinedConcat(a: seq<string>, b: seq<string>)
    ensures Joined(a + b) == Joined(a) + Joined(b)
  {
    if a == [] {
      assert a + b == b;
    } else {
      JoinedConcat(a[1..], b);
      assert (a + b)[1..] == a[1..] + b;
    }
  }

  lemma {:induction false} SplitConcat(a: seq<Elem>, b: seq<Elem>, pa: seq<string>, pb: seq<string>, rest: string)
    requires |a| == |pa|
    ensures Split(a + b, pa + pb, rest) <==> Split(a, pa, Joined(pb) + rest) && Split(b, pb, rest)
  {
    if a == [] {
      assert a + b == b && pa + pb == pb;
    } else {
      SplitConcat(a[1..], b, pa[1..], pb, rest);
      assert (a + b)[1..] == a[1..] + b && (pa + pb)[1..] == pa[1..] + pb;
      JoinedConcat(pa[1..], pb);
      assert Joined(pa[1..] + pb) + rest == Joined(pa[1..]) + (Joined(pb) + rest);
    }
  }

  ghost predicate CutAt(a: seq<Elem>, b: seq<Elem>, line: string, rest: string, i: nat)
    requires i <= |line|
  {
    Denotes(a, line[..i], line[i..] + rest) && Denotes(b, line[i..], rest)
  }

  lemma DenotesConcat(a: seq<Elem>, b: seq<Elem>, line: string, rest: string)
    ensures Denotes(a + b, line, rest) <==> exists i: nat :: i <= |line| && CutAt(a, b, line, rest, i)
  {
    if Denotes(a + b, line, rest) {
      var pieces :| Split(a + b, pieces, rest) && Joined(pieces) == line;
      var pa, pb := pieces[..|a|], pieces[|a|..];
      assert pieces == pa + pb;
      SplitConcat(a, b, pa, pb, rest);
      JoinedConcat(pa, pb);
      var i := |Joined(pa)|;
      assert line[..i] == Joined(pa) && line[i..] == Joined(pb);
      assert CutAt(a, b, line, rest, i);
    }
    if i: nat :| i <= |line| && CutAt(a, b, line, rest, i) {
      var pa :| Split(a, pa, line[i..] + rest) && Joined(pa) == line[..i];
      var pb :| Split(b, pb, rest) && Joined(pb) == line[i..];
      SplitConcat(a, b, pa, pb, rest);
      JoinedConcat(pa, pb);
      assert line == line[..i] + line[i..];
    }
  }

  lemma AnySeqDenotesAll(line: string, rest: string)
    ensures Denotes([AnySeq], line, rest)
  {
    var pieces := [line];
    assert pieces[1..] == [] && [AnySeq][1..] == [];
    assert Split([AnySeq], pieces, rest);
    assert Joined(pieces) == pieces[0] + Joined(pieces[1..]) == line;
  }

  /** What is added around a pattern for substring mode. */
  function Wrapped(es: seq<Elem>): seq<Elem> {
    var closed := if es == [] || es[|es| - 1] != AnySeq then es + [AnySeq] else es;
    if closed[0] != AnySeq then [AnySeq] + closed else closed
  }

  ghost predicate PartAt(es: seq<Elem>, line: string, i: nat, j: nat)
    requires i <= j <= |line|
  {
    Denotes(es, line[i..j], line[j..])
  }

  /** Whatever follows a part may as well be taken by a final **. */
  lemma OpenEnd(es: seq<Elem>, line: string)
    ensures var closed := if es == [] || es[|es| - 1] != AnySeq then es + [AnySeq] else es;
            Denotes(closed, line, "") <==> exists j: nat :: j <= |line| && PartAt(es, line, 0, j)
  {
    if es == [] || es[|es| - 1] != AnySeq {
      DenotesConcat(es, [AnySeq], line, "");
      forall j: nat | j <= |line| ensures CutAt(es, [AnySeq], line, "", j) <==> PartAt(es, line, 0, j) {
        AnySeqDenotesAll(line[j..], "");
        assert line[j..] + "" == line[j..] && line[0..j] == line[..j];
      }
    } else {
      var front := es[..|es| - 1];
      assert es == front + [AnySeq];
      if Denotes(es, line, "") {
        assert line[0..|line|] == line && line[|line|..] == "";
        assert PartAt(es, line, 0, |line|);
      }
      if j: nat :| j <= |line| && PartAt(es, line, 0, j) {
        DenotesConcat(front, [AnySeq], line[0..j], line[j..]);
        var i: nat :| i <= j && CutAt(front, [AnySeq], line[0..j], line[j..], i);
        assert line[0..j][..i] == line[..i] && line[0..j][i..] + line[j..] == line[i..] + "";
        AnySeqDenotesAll(line[i..], "");
        assert CutAt(front, [AnySeq], line, "", i);
        DenotesConcat(front, [AnySeq], line, "");
      }
    }
  }

  lemma OpenStart(es: seq<Elem>, line: string)
    requires es != []
    ensures Denotes(if es[0] != AnySeq then [AnySeq] + es else es, line, "") <==> exists i: nat :: i <= |line| && Denotes(es, line[i..], "")
  {
    if es[0] != AnySeq {
      DenotesCut(AnySeq, es, line, "");
      forall i: nat | i <= |line| ensures FirstCut(AnySeq, line, "", i) {
      }
    } else {
      assert es == [AnySeq] + es[1..];
      if Denotes(es, line, "") {
        assert line[0..] == line;
        assert Denotes(es, line[0..], "");
      }
      if i: nat :| i <= |line| && Denotes(es, line[i..], "") {
        DenotesCut(AnySeq, es[1..], line[i..], "");
        var k: nat :| k <= |line[i..]| && FirstCut(AnySeq, line[i..], "", k) && Denotes(es[1..], line[i..][k..], "");
        assert line[i..][k..] == line[i + k..];
        assert FirstCut(AnySeq, line, "", i + k);
        DenotesCut(AnySeq, es[1..], line, "");
      }
    }
  }

  lemma OpenEndFrom(es: seq<Elem>, line: string, i: nat)
    requires i <= |line|
    ensures var closed := if es == [] || es[|es| - 1] != AnySeq then es + [AnySeq] else es;
            Denotes(closed, line[i..], "") <==> exists j: nat :: i <= j <= |line| && PartAt(es, line, i, j)
  {
    OpenEnd(es, line[i..]);
    forall j: nat | i <= j <= |line| ensures PartAt(es, line, i, j) <==> PartAt(es, line[i..], 0, j - i) {
      assert line[i..][0..j - i] == line[i..j] && line[i..][j - i..] == line[j..];
    }
    if j: nat :| j <= |line[i..]| && PartAt(es, line[i..], 0, j) {
      assert PartAt(es, line, i, i + j);
    }
    if j: nat :| i <= j <= |line| && PartAt(es, line, i, j) {
      assert PartAt(es, line[i..], 0, j - i);
    }
  }

  /** In substring mode a line matches iff some part of it is what the pattern says, where a number
      is still a maximal run of digits of the whole line. */
  lemma SubstringMode(es: seq<Elem>, line: string)
    ensures Denotes(Wrapped(es), line, "") <==> exists i: nat, j: nat :: i <= j <= |line| && PartAt(es, line, i, j)
  {
    var closed := if es == [] || es[|es| - 1] != AnySeq then es + [AnySeq] else es;
    OpenStart(closed, line);
    if i: nat :| i <= |line| && Denotes(closed, line[i..], "") {
      OpenEndFrom(es, line, i);
    }
    if i: nat, j: nat :| i <= j <= |line| && PartAt(es, line, i, j) {
      OpenEndFrom(es, line, i);
      assert Denotes(closed, line[i..], "");
    }
  }
}
