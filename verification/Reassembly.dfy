/** Reassembly of a fragmented datagram by offset ranges. */
module Reassembly {
  type Offset = x: int | 0 <= x < 0x1_0000

  datatype Region = Region(beg: Offset, end: Offset, last: bool)

  // ---------------------------------------------------------------------------------
  // What the buffer does, as functions on its two fields

  predicate Absorbs(main: Region, f: Region) {
    main.end == f.beg || main.beg == f.end || (main.beg <= f.beg && main.end >= f.end)
  }

  function Absorb(main: Region, f: Region): Region {
    if main.end == f.beg then main.(end := f.end, last := main.last || f.last)
    else if main.beg == f.end then main.(beg := f.beg)
    else main
  }

  function Without(frags: seq<Region>, i: nat): seq<Region>
    requires i < |frags|
  {
    frags[..i] + frags[i + 1..]
  }

  /** One pass over the stored fragments from the i-th on. */
  function Sweep(main: Region, frags: seq<Region>, i: nat): (r: (Region, seq<Region>))
    requires i <= |frags|
    ensures |r.1| <= |frags|
    decreases |frags| - i
  {
    if i == |frags| then (main, frags)
    else if Absorbs(main, frags[i]) then Sweep(Absorb(main, frags[i]), Without(frags, i), i)
    else Sweep(main, frags, i + 1)
  }

  /** Passes until one changes nothing. */
  function Merged(main: Region, frags: seq<Region>): (Region, seq<Region>)
    decreases |frags|
  {
    var r := Sweep(main, frags, 0);
    if |r.1| < |frags| then Merged(r.0, r.1) else r
  }

  function Added(main: Region, frags: seq<Region>, f: Region): (Region, seq<Region>) {
    if main.end == f.beg then Merged(main.(end := f.end, last := main.last || f.last), frags)
    else if main.beg == f.end then Merged(main.(beg := f.beg), frags)
    else if main.end < f.beg || main.beg > f.end then (main, frags + [f])
    else (main, frags)
  }

  predicate Complete(main: Region) {
    main.beg == 0 && main.last
  }

  class ReassemblyBuffer {
    var main: Region
    var fragments: seq<Region>

    constructor ()
      ensures main == Region(0, 0, false) && fragments == []
    {
      main, fragments := Region(0, 0, false), [];
    }

    /** With the pieces of one datagram: if so far the main region is the longest received prefix
        and the stored fragments are the other pieces received, then so it is with the new piece.
        With any fragments, overlapping ones included: what is covered was covered before or is
        covered by the new fragment, and stored fragments are stored before or the new one. As long
        as no region ends before it begins, nothing the buffer has is lost, and of the new fragment
        everything or, if it is dropped, nothing is added. */
    method AddFragment(beg: Offset, end: Offset, last: bool) returns (complete: bool)
      modifies this
      ensures forall cuts, got, p: nat, k: nat | Cuts(cuts) && k < Count(cuts) && Region(beg, end, last) == Piece(cuts, k)
                && AllPieces(cuts, got) && InOrder(cuts, got, old(main), old(fragments), p) ::
                AllPieces(cuts, got + {k}) && exists q: nat :: InOrder(cuts, got + {k}, main, fragments, q)
      ensures forall x | Covers(main, x) :: Covers(old(main), x) || Covers(Region(beg, end, last), x) || exists f <- old(fragments) :: Covers(f, x)
      ensures forall f <- fragments :: f in old(fragments) || f == Region(beg, end, last)
      ensures old(Upright(main, fragments)) && beg <= end ==>
                Upright(main, fragments) && forall x :: Has(main, fragments, x) <==>
                  Has(old(main), old(fragments), x) || (Covers(Region(beg, end, last), x) && !Dropped(old(main), Region(beg, end, last)))
      ensures (main, fragments) == Added(old(main), old(fragments), Region(beg, end, last))
      ensures complete == Complete(main)
    {
      AddedHasAll(main, fragments, Region(beg, end, last));
      OnePieceMore(main, fragments, Region(beg, end, last));
      AddedCovers(main, fragments, Region(beg, end, last));
      Merge(beg, end, last);
      complete := main.beg == 0 && main.last;
    }

    method Merge(beg: Offset, end: Offset, last: bool)
      modifies this
      ensures (main, fragments) == Added(old(main), old(fragments), Region(beg, end, last))
    {
      if main.end == beg {
        main := main.(end := end);
        if last {
          main := main.(last := true);
        }
        MergeFragments();
      } else if main.beg == end {
        main := main.(beg := beg);
        MergeFragments();
      } else if main.end < beg || main.beg > end {
        fragments := fragments + [Region(beg, end, last)];
      }
    }

    method MergeFragments()
      modifies this
      ensures (main, fragments) == Merged(old(main), old(fragments))
    {
      var onceMore := true;
      while onceMore
        invariant if onceMore then Merged(main, fragments) == Merged(old(main), old(fragments))
                  else (main, fragments) == Merged(old(main), old(fragments))
        decreases |fragments|, onceMore
      {
        ghost var main0, frags0 := main, fragments;
        onceMore := false;
        var i := 0;
        while i < |fragments|
          invariant i <= |fragments| <= |frags0|
          invariant Sweep(main, fragments, i) == Sweep(main0, frags0, 0)
          invariant onceMore == (|fragments| < |frags0|)
          decreases |fragments| - i
        {
          var frag, deleteIt := fragments[i], false;
          if main.end == frag.beg {
            main := main.(end := frag.end);
            if frag.last {
              main := main.(last := true);
            }
            deleteIt := true;
          } else if main.beg == frag.end {
            main := main.(beg := frag.beg);
            deleteIt := true;
          } else if main.beg <= frag.beg && main.end >= frag.end {
            deleteIt := true;
          }
          if deleteIt {
            fragments := fragments[..i] + fragments[i + 1..];
            onceMore := true;
          } else {
            i := i + 1;
          }
        }
      }
    }

    /** To be called once a fragment has completed the datagram. */
    method GetTotalLength() returns (n: Offset)
      ensures n == main.end
    {
      n := main.end;
    }
  }

  // ---------------------------------------------------------------------------------
  // The pieces of one datagram

  /** The cuts of a datagram of cuts[n] bytes into n pieces, none of them empty. */
  predicate Cuts(cuts: seq<Offset>) {
    |cuts| >= 2 && cuts[0] == 0 && forall i, j :: 0 <= i < j < |cuts| ==> cuts[i] < cuts[j]
  }

  function Count(cuts: seq<Offset>): nat
    requires Cuts(cuts)
  {
    |cuts| - 1
  }

  function Piece(cuts: seq<Offset>, k: nat): Region
    requires Cuts(cuts) && k < Count(cuts)
  {
    Region(cuts[k], cuts[k + 1], k + 1 == Count(cuts))
  }

  /** What the buffer holds after pieces have come in the given order, with any repetitions. */
  function After(cuts: seq<Offset>, order: seq<nat>): (Region, seq<Region>)
    requires Cuts(cuts) && forall k <- order :: k < Count(cuts)
    decreases |order|
  {
    if order == [] then (Region(0, 0, false), [])
    else
      var before := order[..|order| - 1];
      assert forall k <- before :: k in order;
      assert order[|order| - 1] in order;
      var (main, frags) := After(cuts, before);
      Added(main, frags, Piece(cuts, order[|order| - 1]))
  }

  function Arrived(order: seq<nat>): set<nat> {
    set k | k in order
  }

  ghost predicate StoredAs(cuts: seq<Offset>, frags: seq<Region>, k: nat)
    requires Cuts(cuts) && k < Count(cuts)
  {
    Piece(cuts, k) in frags
  }

  /** The main region is the first p pieces, all received, and every other piece received is stored. */
  ghost predicate Holds(cuts: seq<Offset>, got: set<nat>, main: Region, frags: seq<Region>, p: nat)
    requires Cuts(cuts) && forall k <- got :: k < Count(cuts)
  {
    && p <= Count(cuts) && main == Region(0, cuts[p], p == Count(cuts))
    && (forall k: nat :: k < p ==> k in got)
    && (forall k <- got :: k < p || StoredAs(cuts, frags, k))
    && (forall f <- frags :: exists k <- got :: f == Piece(cuts, k))
  }

  lemma {:induction false} SweepHolds(cuts: seq<Offset>, got: set<nat>, main: Region, frags: seq<Region>, i: nat, p: nat) returns (q: nat)
    requires Cuts(cuts) && (forall k <- got :: k < Count(cuts)) && i <= |frags| && Holds(cuts, got, main, frags, p)
    ensures var r := Sweep(main, frags, i);
            && p <= q && Holds(cuts, got, r.0, r.1, q)
            && (|r.1| == |frags| ==> r == (main, frags) && q == p && forall j :: i <= j < |frags| ==> !Absorbs(main, frags[j]))
    decreases |frags| - i
  {
    if i == |frags| {
      q := p;
    } else if Absorbs(main, frags[i]) {
      assert frags[i] in frags;
      var k :| k in got && frags[i] == Piece(cuts, k);
      var rest := Without(frags, i);
      var p1 := if main.end == frags[i].beg then p + 1 else p;
      AbsorbedPiece(cuts, p, k);
      StillStored(cuts, got, frags, i, k, p1);
      assert forall f <- rest :: f in frags;
      q := SweepHolds(cuts, got, Absorb(main, frags[i]), rest, i, p1);
    } else {
      q := SweepHolds(cuts, got, main, frags, i + 1, p);
    }
  }

  /** The only pieces the main region takes are the next one and those it already has. */
  lemma AbsorbedPiece(cuts: seq<Offset>, p: nat, k: nat)
    requires Cuts(cuts) && p <= Count(cuts) && k < Count(cuts)
    ensures cuts[p] == Piece(cuts, k).beg <==> k == p
    ensures cuts[p] >= Piece(cuts, k).end <==> k < p
    ensures Piece(cuts, k).end > 0
  {
  }

  lemma StillStored(cuts: seq<Offset>, got: set<nat>, frags: seq<Region>, i: nat, k: nat, p: nat)
    requires Cuts(cuts) && (forall j <- got :: j < Count(cuts)) && i < |frags| && k in got && frags[i] == Piece(cuts, k)
    requires k < p && p <= Count(cuts)
    requires forall j <- got :: j < p || StoredAs(cuts, frags, j)
    ensures forall j <- got :: j < p || StoredAs(cuts, Without(frags, i), j)
  {
    forall j | j in got && j >= p ensures Piece(cuts, j) in Without(frags, i) {
      assert StoredAs(cuts, frags, j);
      var m :| 0 <= m < |frags| && frags[m] == Piece(cuts, j);
      assert m != i;
      if m < i {
        assert Without(frags, i)[m] == frags[m];
      } else {
        assert Without(frags, i)[m - 1] == frags[m];
      }
    }
  }

  lemma {:induction false} MergedHolds(cuts: seq<Offset>, got: set<nat>, main: Region, frags: seq<Region>, p: nat) returns (q: nat)
    requires Cuts(cuts) && (forall k <- got :: k < Count(cuts)) && Holds(cuts, got, main, frags, p)
    ensures var r := Merged(main, frags);
            && p <= q && Holds(cuts, got, r.0, r.1, q) && forall f <- r.1 :: !Absorbs(r.0, f)
    decreases |frags|
  {
    q := SweepHolds(cuts, got, main, frags, 0, p);
    var r := Sweep(main, frags, 0);
    if |r.1| < |frags| {
      q := MergedHolds(cuts, got, r.0, r.1, q);
    }
  }

  /** The first p pieces are the longest received prefix, and the stored fragments are exactly the
      other pieces received. */
  ghost predicate InOrder(cuts: seq<Offset>, got: set<nat>, main: Region, frags: seq<Region>, p: nat)
    requires Cuts(cuts) && AllPieces(cuts, got)
  {
    && p <= Count(cuts) && (forall k: nat :: k < p ==> k in got) && p !in got
    && main == Region(0, cuts[p], p == Count(cuts))
    && (forall f: Region :: f in frags <==> exists k <- got :: p < k && f == Piece(cuts, k))
  }

  predicate AllPieces(cuts: seq<Offset>, got: set<nat>)
    requires Cuts(cuts)
  {
    forall k <- got :: k < Count(cuts)
  }

  lemma HoldsInOrder(cuts: seq<Offset>, got: set<nat>, main: Region, frags: seq<Region>, p: nat)
    requires Cuts(cuts) && (forall k <- got :: k < Count(cuts)) && Holds(cuts, got, main, frags, p)
    requires forall f <- frags :: !Absorbs(main, f)
    ensures InOrder(cuts, got, main, frags, p)
  {
    assert p < Count(cuts) ==> Absorbs(main, Piece(cuts, p));
    assert p in got ==> StoredAs(cuts, frags, p);
    forall f | f in frags ensures exists k <- got :: p < k && f == Piece(cuts, k) {
      var k :| k in got && f == Piece(cuts, k);
      AbsorbedPiece(cuts, p, k);
    }
    forall k | k in got && p < k ensures Piece(cuts, k) in frags {
      assert StoredAs(cuts, frags, k);
    }
  }

  lemma AddedInOrder(cuts: seq<Offset>, got: set<nat>, main: Region, frags: seq<Region>, p: nat, k: nat) returns (q: nat)
    requires Cuts(cuts) && (forall j <- got :: j < Count(cuts)) && InOrder(cuts, got, main, frags, p) && k < Count(cuts)
    ensures var r := Added(main, frags, Piece(cuts, k)); InOrder(cuts, got + {k}, r.0, r.1, q)
  {
    var f := Piece(cuts, k);
    AbsorbedPiece(cuts, p, k);
    forall j | j in got && j > p ensures StoredAs(cuts, frags, j) {
    }
    if k == p {
      var main1 := main.(end := f.end, last := main.last || f.last);
      assert Holds(cuts, got + {k}, main1, frags, p + 1);
      q := MergedHolds(cuts, got + {k}, main1, frags, p + 1);
      var r := Merged(main1, frags);
      HoldsInOrder(cuts, got + {k}, r.0, r.1, q);
    } else {
      q := p;
    }
  }

  lemma OnePieceMore(main: Region, frags: seq<Region>, f: Region)
    ensures forall cuts, got, p: nat, k: nat | Cuts(cuts) && k < Count(cuts) && f == Piece(cuts, k)
              && AllPieces(cuts, got) && InOrder(cuts, got, main, frags, p) ::
              var r := Added(main, frags, f); AllPieces(cuts, got + {k}) && exists q: nat :: InOrder(cuts, got + {k}, r.0, r.1, q)
  {
    forall cuts, got, p: nat, k: nat | Cuts(cuts) && k < Count(cuts) && f == Piece(cuts, k)
      && AllPieces(cuts, got) && InOrder(cuts, got, main, frags, p)
      ensures var r := Added(main, frags, f); AllPieces(cuts, got + {k}) && exists q: nat :: InOrder(cuts, got + {k}, r.0, r.1, q)
    {
      var q := AddedInOrder(cuts, got, main, frags, p, k);
    }
  }

  /** After any arrival order with any repetitions. */
  lemma {:induction false} AfterInOrder(cuts: seq<Offset>, order: seq<nat>) returns (p: nat)
    requires Cuts(cuts) && forall k <- order :: k < Count(cuts)
    ensures InOrder(cuts, Arrived(order), After(cuts, order).0, After(cuts, order).1, p)
    decreases |order|
  {
    if order == [] {
      p := 0;
    } else {
      var before, k := order[..|order| - 1], order[|order| - 1];
      assert forall j <- before :: j in order;
      assert k in order;
      p := AfterInOrder(cuts, before);
      var (main, frags) := After(cuts, before);
      p := AddedInOrder(cuts, Arrived(before), main, frags, p, k);
      assert order == before + [k];
      assert Arrived(order) == Arrived(before) + {k};
    }
  }

  /** The datagram is complete exactly when every piece has arrived, and then its length is known. */
  lemma CompleteExactlyWhenAllArrived(cuts: seq<Offset>, order: seq<nat>)
    requires Cuts(cuts) && forall k <- order :: k < Count(cuts)
    ensures var main := After(cuts, order).0;
            && (Complete(main) <==> forall k: nat :: k < Count(cuts) ==> k in order)
            && (Complete(main) ==> main.end == cuts[Count(cuts)] && After(cuts, order).1 == [])
  {
    var p := AfterInOrder(cuts, order);
    var (main, frags) := After(cuts, order);
    forall k: nat | k < p ensures k in order {
      assert k in Arrived(order);
    }
    assert p !in order;
    assert frags == [] || frags[0] in frags;
    assert Complete(main) <==> p == Count(cuts);
  }

  // ---------------------------------------------------------------------------------
  // Arbitrary fragments

  predicate Covers(f: Region, x: int) {
    f.beg <= x < f.end
  }

  predicate CoveredBy(fs: seq<Region>, x: int) {
    exists f <- fs :: Covers(f, x)
  }

  /** Every offset of the main region is covered by one of the fragments `fs`, every stored
      fragment is one of them, and the main region ends the datagram only if one of them does. */
  ghost predicate From(fs: seq<Region>, main: Region, frags: seq<Region>) {
    && (forall x | Covers(main, x) :: CoveredBy(fs, x))
    && (forall f <- frags :: f in fs)
    && (main.last ==> exists f <- fs :: f.last)
  }

  lemma AbsorbFrom(fs: seq<Region>, main: Region, frags: seq<Region>, f: Region)
    requires From(fs, main, frags) && f in fs
    ensures From(fs, Absorb(main, f), frags)
  {
    forall x | Covers(Absorb(main, f), x) ensures CoveredBy(fs, x) {
      assert Covers(main, x) || Covers(f, x);
    }
  }

  lemma {:induction false} SweepFrom(fs: seq<Region>, main: Region, frags: seq<Region>, i: nat)
    requires From(fs, main, frags) && i <= |frags|
    ensures From(fs, Sweep(main, frags, i).0, Sweep(main, frags, i).1)
    decreases |frags| - i
  {
    if i < |frags| {
      if Absorbs(main, frags[i]) {
        assert frags[i] in frags && forall f <- Without(frags, i) :: f in frags;
        AbsorbFrom(fs, main, frags, frags[i]);
        SweepFrom(fs, Absorb(main, frags[i]), Without(frags, i), i);
      } else {
        SweepFrom(fs, main, frags, i + 1);
      }
    }
  }

  lemma {:induction false} MergedFrom(fs: seq<Region>, main: Region, frags: seq<Region>)
    requires From(fs, main, frags)
    ensures From(fs, Merged(main, frags).0, Merged(main, frags).1)
    decreases |frags|
  {
    SweepFrom(fs, main, frags, 0);
    var r := Sweep(main, frags, 0);
    if |r.1| < |frags| {
      MergedFrom(fs, r.0, r.1);
    }
  }

  lemma AddedFrom(fs: seq<Region>, main: Region, frags: seq<Region>, f: Region)
    requires From(fs, main, frags) && f in fs
    ensures From(fs, Added(main, frags, f).0, Added(main, frags, f).1)
  {
    AbsorbFrom(fs, main, frags, f);
    MergedFrom(fs, Absorb(main, f), frags);
  }

  lemma AddedCovers(main: Region, frags: seq<Region>, f: Region)
    ensures var r := Added(main, frags, f);
            && (forall x | Covers(r.0, x) :: Covers(main, x) || Covers(f, x) || exists g <- frags :: Covers(g, x))
            && (forall g <- r.1 :: g in frags || g == f)
  {
    var fs := [main.(last := true)] + frags + [f];
    assert fs[0] == main.(last := true) && fs[|fs| - 1] == f;
    forall x | Covers(main, x) ensures CoveredBy(fs, x) {
      assert Covers(fs[0], x);
    }
    assert From(fs, main, frags);
    AddedFrom(fs, main, frags, f);
    AddedKeeps(main, frags, f);
    var r := Added(main, frags, f);
    forall x | Covers(r.0, x) ensures Covers(main, x) || Covers(f, x) || exists g <- frags :: Covers(g, x) {
      var g :| g in fs && Covers(g, x);
    }
  }

  lemma {:induction false} SweepKeeps(main: Region, frags: seq<Region>, i: nat)
    requires i <= |frags|
    ensures forall g <- Sweep(main, frags, i).1 :: g in frags
    decreases |frags| - i
  {
    if i < |frags| {
      if Absorbs(main, frags[i]) {
        SweepKeeps(Absorb(main, frags[i]), Without(frags, i), i);
        assert forall f <- Without(frags, i) :: f in frags;
      } else {
        SweepKeeps(main, frags, i + 1);
      }
    }
  }

  lemma {:induction false} MergedKeeps(main: Region, frags: seq<Region>)
    ensures forall g <- Merged(main, frags).1 :: g in frags
    decreases |frags|
  {
    SweepKeeps(main, frags, 0);
    var r := Sweep(main, frags, 0);
    if |r.1| < |frags| {
      MergedKeeps(r.0, r.1);
    }
  }

  lemma AddedKeeps(main: Region, frags: seq<Region>, f: Region)
    ensures forall g <- Added(main, frags, f).1 :: g in frags || g == f
  {
    MergedKeeps(Absorb(main, f), frags);
  }

  /** The buffer after any fragments whatever. */
  function AfterAny(fs: seq<Region>): (Region, seq<Region>)
    decreases |fs|
  {
    if fs == [] then (Region(0, 0, false), [])
    else
      var (main, frags) := AfterAny(fs[..|fs| - 1]);
      Added(main, frags, fs[|fs| - 1])
  }

  lemma MoreFragments(fs: seq<Region>, more: seq<Region>, main: Region, frags: seq<Region>)
    requires From(fs, main, frags) && forall f <- fs :: f in more
    ensures From(more, main, frags)
  {
    forall x | Covers(main, x) ensures CoveredBy(more, x) {
      assert CoveredBy(fs, x);
    }
  }

  /** Whatever fragments come in, in whatever order and however they overlap: the main region
      covers only offsets that some received fragment covers, and if the datagram is reported
      complete, every offset below its length has been received and some last fragment too. */
  lemma {:induction false} NothingIsMadeUp(fs: seq<Region>)
    ensures From(fs, AfterAny(fs).0, AfterAny(fs).1)
    ensures Complete(AfterAny(fs).0) ==> forall x :: 0 <= x < AfterAny(fs).0.end ==> CoveredBy(fs, x)
    decreases |fs|
  {
    if fs != [] {
      var before, f := fs[..|fs| - 1], fs[|fs| - 1];
      NothingIsMadeUp(before);
      var (main, frags) := AfterAny(before);
      assert forall g <- before :: g in fs;
      MoreFragments(before, fs, main, frags);
      AddedFrom(fs, main, frags, f);
    }
    var main := AfterAny(fs).0;
    if Complete(main) {
      forall x | 0 <= x < main.end ensures CoveredBy(fs, x) {
        assert Covers(main, x);
      }
    }
  }

  // ---------------------------------------------------------------------------------
  // What gets lost

  /** No region ends before it begins. */
  predicate Upright(main: Region, frags: seq<Region>) {
    main.beg <= main.end && forall g <- frags :: g.beg <= g.end
  }

  /** The buffer has the offset, in the main region or in a stored fragment. */
  predicate Has(main: Region, frags: seq<Region>, x: int) {
    Covers(main, x) || CoveredBy(frags, x)
  }

  /** The fragment is neither adjacent to the main region nor disjoint from it. */
  predicate Dropped(main: Region, f: Region) {
    main.end != f.beg && main.beg != f.end && main.end >= f.beg && main.beg <= f.end
  }

  lemma AbsorbHas(main: Region, frags: seq<Region>, i: nat, x: int)
    requires Upright(main, frags) && i < |frags| && Absorbs(main, frags[i])
    ensures Upright(Absorb(main, frags[i]), Without(frags, i))
    ensures Has(Absorb(main, frags[i]), Without(frags, i), x) <==> Has(main, frags, x)
  {
    var rest := Without(frags, i);
    assert frags[i] in frags && forall g <- rest :: g in frags;
    assert frags == frags[..i] + [frags[i]] + frags[i + 1..];
    assert forall g <- frags :: g in rest || g == frags[i];
  }

  lemma {:induction false} SweepHas(main: Region, frags: seq<Region>, i: nat, x: int)
    requires Upright(main, frags) && i <= |frags|
    ensures var r := Sweep(main, frags, i); Upright(r.0, r.1) && (Has(r.0, r.1, x) <==> Has(main, frags, x))
    decreases |frags| - i
  {
    if i < |frags| {
      if Absorbs(main, frags[i]) {
        AbsorbHas(main, frags, i, x);
        SweepHas(Absorb(main, frags[i]), Without(frags, i), i, x);
      } else {
        SweepHas(main, frags, i + 1, x);
      }
    }
  }

  lemma {:induction false} MergedHas(main: Region, frags: seq<Region>, x: int)
    requires Upright(main, frags)
    ensures var r := Merged(main, frags); Upright(r.0, r.1) && (Has(r.0, r.1, x) <==> Has(main, frags, x))
    decreases |frags|
  {
    SweepHas(main, frags, 0, x);
    var r := Sweep(main, frags, 0);
    if |r.1| < |frags| {
      MergedHas(r.0, r.1, x);
    }
  }

  /** Adding a fragment loses nothing the buffer had, and none of the fragment's offsets unless it
      is neither adjacent to the main region nor disjoint from it; it then adds none. */
  lemma AddedHas(main: Region, frags: seq<Region>, f: Region, x: int)
    requires Upright(main, frags) && f.beg <= f.end
    ensures var r := Added(main, frags, f);
            && Upright(r.0, r.1)
            && (Has(r.0, r.1, x) <==> Has(main, frags, x) || (Covers(f, x) && !Dropped(main, f)))
  {
    if main.end == f.beg || main.beg == f.end {
      MergedHas(Absorb(main, f).(last := main.last || (main.end == f.beg && f.last)), frags, x);
    } else if !Dropped(main, f) {
      assert (frags + [f])[|frags|] == f && forall g <- frags :: g in frags + [f];
    }
  }

  lemma AddedHasAll(main: Region, frags: seq<Region>, f: Region)
    ensures Upright(main, frags) && f.beg <= f.end ==>
              var r := Added(main, frags, f);
              && Upright(r.0, r.1)
              && forall x :: Has(r.0, r.1, x) <==> Has(main, frags, x) || (Covers(f, x) && !Dropped(main, f))
  {
    hide Added, Upright, Dropped, Covers, Has;
    if Upright(main, frags) && f.beg <= f.end {
      var r := Added(main, frags, f);
      AddedHas(main, frags, f, 0);
      forall x ensures Has(r.0, r.1, x) <==> Has(main, frags, x) || (Covers(f, x) && !Dropped(main, f)) {
        AddedHas(main, frags, f, x);
      }
    }
  }

  ghost predicate TakenIn(fs: seq<Region>, i: nat)
    requires i < |fs|
  {
    !Dropped(AfterAny(fs[..i]).0, fs[i])
  }

  /** Some fragment that was taken in covers the offset. */
  ghost predicate TakenInAt(fs: seq<Region>, x: int) {
    exists i: nat :: i < |fs| && TakenIn(fs, i) && Covers(fs[i], x)
  }

  lemma TakenInLast(fs: seq<Region>, x: int)
    requires fs != []
    ensures var n := |fs| - 1; TakenInAt(fs, x) <==> TakenInAt(fs[..n], x) || (TakenIn(fs, n) && Covers(fs[n], x))
  {
    hide AfterAny, Covers, Dropped;
    var n := |fs| - 1;
    var before := fs[..n];
    forall i: nat | i < n ensures before[i] == fs[i] && TakenIn(fs, i) == TakenIn(before, i) {
      assert before[..i] == fs[..i];
    }
    hide TakenIn;
    if i: nat :| i < |before| && TakenIn(before, i) && Covers(before[i], x) {
      assert TakenIn(fs, i) && Covers(fs[i], x);
    }
  }

  /** After any fragments whatever the buffer has exactly the offsets of those that, when they
      came in, were adjacent to the main region or disjoint from it. */
  lemma {:induction false} HasExactlyWhen(fs: seq<Region>, x: int)
    requires forall f <- fs :: f.beg <= f.end
    ensures Upright(AfterAny(fs).0, AfterAny(fs).1)
    ensures Has(AfterAny(fs).0, AfterAny(fs).1, x) <==> TakenInAt(fs, x)
    decreases |fs|
  {
    hide Added, Upright, Dropped, Covers, Has, TakenInAt;
    if fs == [] {
      NothingYet(x);
    } else {
      var n := |fs| - 1;
      assert forall f <- fs[..n] :: f in fs;
      HasExactlyWhen(fs[..n], x);
      TakenInLast(fs, x);
      AddedHas(AfterAny(fs[..n]).0, AfterAny(fs[..n]).1, fs[n], x);
    }
  }

  lemma NothingYet(x: int)
    ensures Upright(AfterAny([]).0, AfterAny([]).1) && !Has(AfterAny([]).0, AfterAny([]).1, x) && !TakenInAt([], x)
  {
  }
}
