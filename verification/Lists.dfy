/** Erasing from vectors that hold no element twice. */
module Lists {

  ghost predicate NoDup<A>(s: seq<A>) {
    forall i, j :: 0 <= i < j < |s| ==> s[i] != s[j]
  }

  /** `s` without the first occurrence of `x`. */
  function Without<A(==)>(s: seq<A>, x: A): seq<A> {
    if s == [] then [] else if s[0] == x then s[1..] else [s[0]] + Without(s[1..], x)
  }

  lemma {:induction false} WithoutAt<A>(s: seq<A>, x: A, i: nat)
    requires i < |s| && s[i] == x && x !in s[..i]
    ensures Without(s, x) == s[..i] + s[i + 1..]
  {
    if i > 0 {
      assert s[0] in s[..i];
      assert s[1..][..i - 1] == s[..i][1..];
      WithoutAt(s[1..], x, i - 1);
    }
  }

  lemma {:induction false} WithoutFacts<A>(s: seq<A>, x: A)
    requires NoDup(s)
    ensures NoDup(Without(s, x))
    ensures forall y :: y in Without(s, x) <==> y in s && y != x
    ensures x !in s ==> Without(s, x) == s
  {
    if s != [] {
      assert NoDup(s[1..]) && s[0] !in s[1..] && s == [s[0]] + s[1..];
      WithoutFacts(s[1..], x);
    }
  }

  /** `s` without the elements of `dead`, in the same order. */
  function Keep<A(==)>(s: seq<A>, dead: set<A>): seq<A> {
    if s == [] then []
    else if s[0] in dead then Keep(s[1..], dead)
    else [s[0]] + Keep(s[1..], dead)
  }

  lemma {:induction false} KeepFacts<A>(s: seq<A>, dead: set<A>)
    ensures forall y :: y in Keep(s, dead) <==> y in s && y !in dead
    ensures NoDup(s) ==> NoDup(Keep(s, dead))
    ensures (forall y <- s :: y !in dead) ==> Keep(s, dead) == s
  {
    if s != [] {
      KeepFacts(s[1..], dead);
      assert s == [s[0]] + s[1..];
      assert NoDup(s) ==> NoDup(s[1..]) && s[0] !in s[1..];
    }
  }

  lemma {:induction false} KeepOneLess<A>(s: seq<A>, dead: set<A>, x: A)
    requires NoDup(s)
    ensures Keep(s, dead + {x}) == Without(Keep(s, dead), x)
  {
    if s != [] {
      assert NoDup(s[1..]) && s[0] !in s[1..];
      KeepOneLess(s[1..], dead, x);
      KeepFacts(s[1..], dead);
      KeepFacts(s[1..], dead + {x});
      if s[0] == x {
        KeepWithoutNewcomer(s[1..], dead, x);
        WithoutFacts(Keep(s[1..], dead), x);
      }
      if s[0] !in dead {
        assert Keep(s, dead)[1..] == Keep(s[1..], dead);
      }
    }
  }

  lemma {:induction false} KeepWithoutNewcomer<A>(s: seq<A>, dead: set<A>, x: A)
    requires x !in s
    ensures Keep(s, dead + {x}) == Keep(s, dead)
  {
    if s != [] {
      KeepWithoutNewcomer(s[1..], dead, x);
    }
  }

  lemma {:induction false} KeepSame<A>(s: seq<A>, a: set<A>, b: set<A>)
    requires forall x <- s :: x in a <==> x in b
    ensures Keep(s, a) == Keep(s, b)
  {
    if s != [] {
      KeepSame(s[1..], a, b);
    }
  }
}
