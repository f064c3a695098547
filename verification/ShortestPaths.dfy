/** Single-target shortest paths in a graph whose nodes charge for transit: what the distances
    mean, and the search that Topology performs, as steps on mathematical values. */
module ShortestPaths {
  import opened Lists

  /** Non-negative lengths, with infinity. */
  datatype Ext = Fin(r: real) | Inf

  function Add(a: Ext, b: Ext): Ext {
    if a.Fin? && b.Fin? then Fin(a.r + b.r) else Inf
  }

  predicate Le(a: Ext, b: Ext) {
    b.Inf? || (a.Fin? && a.r <= b.r)
  }

  predicate Lt(a: Ext, b: Ext) {
    a.Fin? && (b.Inf? || a.r < b.r)
  }

  /** A usable link: it and its source node are enabled. */
  datatype Edge<N, L> = Edge(link: L, src: N, dst: N, w: Ext)

  datatype Graph<N(==), L(==)> = Graph(nodes: set<N>, edges: set<Edge<N, L>>, cost: map<N, Ext>)
  {
    /** Links have positive weights, and nodes non-negative ones. */
    ghost predicate Valid() {
      && cost.Keys == nodes
      && (forall n <- nodes :: Le(Fin(0.0), cost[n]))
      && (forall e <- edges :: e.src in nodes && e.dst in nodes && Lt(Fin(0.0), e.w))
    }
  }

  // ---------------------------------------------------------------------------------
  // Paths

  ghost predicate IsPath<N, L>(g: Graph<N, L>, u: N, t: N, p: seq<Edge<N, L>>) {
    if p == [] then u == t
    else p[0] in g.edges && p[0].src == u && IsPath(g, p[0].dst, t, p[1..])
  }

  /** The weights of all links on the path. */
  function LinkSum<N, L>(p: seq<Edge<N, L>>): Ext {
    if p == [] then Fin(0.0) else Add(p[0].w, LinkSum(p[1..]))
  }

  /** The weights of the nodes strictly between the two ends of the path. */
  function TransitSum<N(==), L(==)>(g: Graph<N, L>, p: seq<Edge<N, L>>): Ext {
    if |p| <= 1 then Fin(0.0)
    else Add(if p[0].dst in g.cost then g.cost[p[0].dst] else Inf, TransitSum(g, p[1..]))
  }

  function Length<N(==), L(==)>(g: Graph<N, L>, p: seq<Edge<N, L>>): Ext {
    Add(LinkSum(p), TransitSum(g, p))
  }

  /** The distance of e.src if it goes on through `e`, given the distance of e.dst: the target
      itself does not charge for being reached. */
  function Via<N(==), L(==)>(g: Graph<N, L>, t: N, d: Ext, e: Edge<N, L>): Ext {
    var nd := Add(d, e.w);
    if e.dst == t then nd else Add(nd, if e.dst in g.cost then g.cost[e.dst] else Inf)
  }

  lemma LengthStep<N, L>(g: Graph<N, L>, t: N, p: seq<Edge<N, L>>)
    requires g.Valid() && p != [] && IsPath(g, p[0].src, t, p)
    ensures Le(Via(g, t, Length(g, p[1..]), p[0]), Length(g, p))
    ensures |p| > 1 && p[0].dst != t ==> Length(g, p) == Via(g, t, Length(g, p[1..]), p[0])
    ensures |p| == 1 ==> Length(g, p) == Via(g, t, Length(g, p[1..]), p[0])
  {
    assert p[0].dst in g.nodes;
    if |p| == 1 {
      assert p[1..] == [];
    }
  }

  // ---------------------------------------------------------------------------------
  // The search

  /** Distances and first edges found so far, the nodes taken from the queue in that order,
      and the queue. */
  datatype Search<N(==), L(==)> = Search(dist: map<N, Ext>, first: map<N, Edge<N, L>>, done: seq<N>, queue: seq<N>)

  function Start<N(==), L(==)>(g: Graph<N, L>, t: N): Search<N, L> {
    Search((map n | n in g.nodes :: Inf)[t := Fin(0.0)], map[], [], [t])
  }

  function Remove<N(==)>(q: seq<N>, n: N): seq<N> {
    if q == [] then [] else (if q[0] == n then [] else [q[0]]) + Remove(q[1..], n)
  }

  /** Before the first node that is farther than `d`. */
  function Insert<N(==)>(dist: map<N, Ext>, q: seq<N>, n: N, d: Ext): seq<N>
    requires forall m <- q :: m in dist
  {
    if q == [] then [n]
    else if Lt(d, dist[q[0]]) then [n] + q
    else [q[0]] + Insert(dist, q[1..], n, d)
  }

  lemma {:induction false} RemoveFacts<N>(q: seq<N>, n: N)
    ensures forall m :: m in Remove(q, n) <==> m in q && m != n
    ensures NoDup(q) ==> NoDup(Remove(q, n))
    ensures n !in q ==> Remove(q, n) == q
  {
    if q != [] {
      RemoveFacts(q[1..], n);
      assert q == [q[0]] + q[1..];
      assert NoDup(q) ==> NoDup(q[1..]) && q[0] !in q[1..];
      var r := Remove(q[1..], n);
      if NoDup(q) && q[0] != n {
        assert q[0] !in r;
        assert NoDup([q[0]] + r);
      }
    }
  }

  ghost predicate Sorted<N>(dist: map<N, Ext>, q: seq<N>) {
    && (forall n <- q :: n in dist)
    && forall i, j :: 0 <= i < j < |q| ==> Le(dist[q[i]], dist[q[j]])
  }

  lemma {:induction false} RemoveSorted<N>(dist: map<N, Ext>, q: seq<N>, n: N)
    requires Sorted(dist, q)
    ensures Sorted(dist, Remove(q, n))
  {
    RemoveFacts(q, n);
    if q != [] {
      assert Sorted(dist, q[1..]);
      RemoveSorted(dist, q[1..], n);
      RemoveFacts(q[1..], n);
      var r := Remove(q[1..], n);
      forall m <- r ensures Le(dist[q[0]], dist[m]) {
        var j :| 0 <= j < |q[1..]| && q[1..][j] == m;
        assert q[j + 1] == m;
      }
    }
  }

  lemma {:induction false} InsertMembers<N>(dist: map<N, Ext>, q: seq<N>, n: N, d: Ext)
    requires forall m <- q :: m in dist
    ensures forall m :: m in Insert(dist, q, n, d) <==> m == n || m in q
  {
    if q != [] && !Lt(d, dist[q[0]]) {
      InsertMembers(dist, q[1..], n, d);
      assert q == [q[0]] + q[1..];
    }
  }

  lemma {:induction false} InsertNoDup<N>(dist: map<N, Ext>, q: seq<N>, n: N, d: Ext)
    requires (forall m <- q :: m in dist) && NoDup(q) && n !in q
    ensures NoDup(Insert(dist, q, n, d))
  {
    if q != [] && !Lt(d, dist[q[0]]) {
      assert q[0] !in q[1..] && NoDup(q[1..]);
      InsertNoDup(dist, q[1..], n, d);
      InsertMembers(dist, q[1..], n, d);
    }
  }

  lemma {:induction false} InsertSorted<N>(dist: map<N, Ext>, q: seq<N>, n: N, d: Ext)
    requires Sorted(dist, q) && n in dist && dist[n] == d
    ensures Sorted(dist, Insert(dist, q, n, d))
  {
    if q == [] {
    } else if Lt(d, dist[q[0]]) {
      assert forall m <- q :: Le(dist[q[0]], dist[m]);
    } else {
      assert Sorted(dist, q[1..]) && forall m <- q[1..] :: Le(dist[q[0]], dist[m]);
      InsertSorted(dist, q[1..], n, d);
      InsertMembers(dist, q[1..], n, d);
    }
  }

  /** An edge into a node just taken from the queue is tried: if it makes its source nearer,
      the source is moved to its new place in the queue. */
  function Relax<N(==), L(==)>(g: Graph<N, L>, t: N, s: Search<N, L>, e: Edge<N, L>): Search<N, L>
    requires e.src in s.dist && e.dst in s.dist && forall n <- s.queue :: n in s.dist
  {
    var nd := Via(g, t, s.dist[e.dst], e);
    if nd.Fin? && Lt(nd, s.dist[e.src]) then
      var q := if s.dist[e.src].Fin? then Remove(s.queue, e.src) else s.queue;
      RemoveFacts(s.queue, e.src);
      var dist := s.dist[e.src := nd];
      Search(dist, s.first[e.src := e], s.done, Insert(dist, q, e.src, nd))
    else s
  }

  function Take<N(==), L(==)>(s: Search<N, L>): Search<N, L>
    requires s.queue != []
  {
    s.(done := s.done + [s.queue[0]], queue := s.queue[1..])
  }

  // ---------------------------------------------------------------------------------
  // What the search keeps

  /** Distances are finite exactly for nodes met, which are done or queued but not both. */
  ghost predicate Shape<N, L>(g: Graph<N, L>, t: N, s: Search<N, L>) {
    && s.dist.Keys == g.nodes && t in g.nodes && s.dist[t] == Fin(0.0)
    && NoDup(s.done) && NoDup(s.queue) && Sorted(s.dist, s.queue)
    && (forall n <- s.done :: n in g.nodes && n !in s.queue)
    && (forall n <- g.nodes :: s.dist[n].Fin? <==> n in s.done || n in s.queue)
    && (forall n <- g.nodes :: Le(Fin(0.0), s.dist[n]))
  }

  /** Nothing done is farther than what was done last, which is no farther than the queue. */
  ghost predicate Frontier<N, L>(s: Search<N, L>) {
    && (forall n <- s.done :: n in s.dist) && (forall n <- s.queue :: n in s.dist)
    && (s.done != [] ==>
        var last := s.done[|s.done| - 1];
        && (forall n <- s.done :: Le(s.dist[n], s.dist[last]))
        && (forall n <- s.queue :: Le(s.dist[last], s.dist[n])))
  }

  /** `e` explains the distance of its source. */
  ghost predicate Explains<N, L>(g: Graph<N, L>, t: N, s: Search<N, L>, n: N, e: Edge<N, L>) {
    && e in g.edges && e.src == n && e.dst in s.done
    && n in s.dist && e.dst in s.dist && s.dist[n] == Via(g, t, s.dist[e.dst], e)
  }

  /** Every node met but the target has a first edge, into a done node. */
  ghost predicate Explained<N, L>(g: Graph<N, L>, t: N, s: Search<N, L>) {
    && t !in s.first && s.first.Keys <= s.dist.Keys
    && (forall n <- s.dist.Keys :: n != t ==>
          (s.dist[n].Fin? <==> n in s.first) && (n in s.first ==> Explains(g, t, s, n, s.first[n])))
  }

  /** The first edge of a done node goes to a node done earlier. */
  ghost predicate Ordered<N, L>(s: Search<N, L>) {
    forall i :: 0 <= i < |s.done| && s.done[i] in s.first ==> s.first[s.done[i]].dst in s.done[..i]
  }

  /** No edge into a done node would make its source nearer, except those still to be tried. */
  ghost predicate Settled<N, L>(g: Graph<N, L>, t: N, s: Search<N, L>, open: set<Edge<N, L>>) {
    forall e <- g.edges :: e.src in s.dist && e.dst in s.dist &&
      (e.dst in s.done && e !in open ==> Le(s.dist[e.src], Via(g, t, s.dist[e.dst], e)))
  }

  ghost predicate Inv<N, L>(g: Graph<N, L>, t: N, s: Search<N, L>, open: set<Edge<N, L>>) {
    && Shape(g, t, s) && Frontier(s) && Explained(g, t, s) && Ordered(s) && Settled(g, t, s, open)
    && (forall e <- open :: s.done != [] && e.dst == s.done[|s.done| - 1])
  }

  lemma StartInv<N, L>(g: Graph<N, L>, t: N)
    requires g.Valid() && t in g.nodes
    ensures Inv(g, t, Start<N, L>(g, t), {})
  {
  }

  /** Trying an edge into the last done node never touches a done node. */
  lemma RelaxTouchesOpenNodesOnly<N, L>(g: Graph<N, L>, t: N, s: Search<N, L>, open: set<Edge<N, L>>, e: Edge<N, L>)
    requires g.Valid() && Inv(g, t, s, open) && e in g.edges
    requires s.done != [] && e.dst == s.done[|s.done| - 1]
    ensures Lt(s.dist[e.dst], Via(g, t, s.dist[e.dst], e)) || Via(g, t, s.dist[e.dst], e).Inf?
    ensures Lt(Via(g, t, s.dist[e.dst], e), s.dist[e.src]) ==> e.src !in s.done && e.src != t
  {
    hide Explained, Ordered, Settled, NoDup, Sorted;
    assert e.dst in s.done && e.dst in g.nodes;
    assert Lt(Fin(0.0), e.w) && Le(Fin(0.0), g.cost[e.dst]);
  }

  /** `r` is `s` after the source of `e`, not done yet, was made nearer by `e`. */
  ghost predicate MadeNearer<N, L>(g: Graph<N, L>, t: N, s: Search<N, L>, e: Edge<N, L>, r: Search<N, L>) {
    && e in g.edges && e.src in s.dist && e.src != t && e.src !in s.done
    && s.done != [] && e.dst == s.done[|s.done| - 1] && e.dst in s.dist
    && var nd := Via(g, t, s.dist[e.dst], e);
    && nd.Fin? && Lt(s.dist[e.dst], nd) && Lt(nd, s.dist[e.src])
    && r.dist == s.dist[e.src := nd] && r.first == s.first[e.src := e] && r.done == s.done
    && e.src in r.queue && (forall m <- s.queue :: m in r.queue)
    && (forall m <- r.queue :: m == e.src || m in s.queue)
    && NoDup(r.queue) && Sorted(r.dist, r.queue)
  }

  lemma QueueAfterMove<N>(dist: map<N, Ext>, q: seq<N>, n: N, d: Ext)
    requires Sorted(dist, q) && NoDup(q)
    ensures var q1 := Remove(q, n);
            && Sorted(dist[n := d], q1) && n !in q1
            && var r := Insert(dist[n := d], q1, n, d);
            && NoDup(r) && Sorted(dist[n := d], r)
            && n in r && (forall m <- q :: m in r) && (forall m <- r :: m == n || m in q)
  {
    RemoveFacts(q, n);
    RemoveSorted(dist, q, n);
    var q1 := Remove(q, n);
    InsertMembers(dist[n := d], q1, n, d);
    InsertNoDup(dist[n := d], q1, n, d);
    InsertSorted(dist[n := d], q1, n, d);
  }

  lemma RelaxMakesNearer<N, L>(g: Graph<N, L>, t: N, s: Search<N, L>, open: set<Edge<N, L>>, e: Edge<N, L>)
    requires g.Valid() && Inv(g, t, s, open) && e in g.edges
    requires s.done != [] && e.dst == s.done[|s.done| - 1]
    requires Lt(Via(g, t, s.dist[e.dst], e), s.dist[e.src])
    ensures MadeNearer(g, t, s, e, Relax(g, t, s, e))
  {
    RelaxTouchesOpenNodesOnly(g, t, s, open, e);
    QueueAfterMove(s.dist, s.queue, e.src, Via(g, t, s.dist[e.dst], e));
    if s.dist[e.src].Inf? {
      RemoveFacts(s.queue, e.src);
    }
  }

  lemma NearerShape<N, L>(g: Graph<N, L>, t: N, s: Search<N, L>, e: Edge<N, L>, r: Search<N, L>)
    requires g.Valid() && Shape(g, t, s) && MadeNearer(g, t, s, e, r)
    ensures Shape(g, t, r)
  {
    assert e.src in g.nodes && r.dist.Keys == g.nodes;
  }

  lemma NearerFrontier<N, L>(g: Graph<N, L>, t: N, s: Search<N, L>, e: Edge<N, L>, r: Search<N, L>)
    requires Frontier(s) && MadeNearer(g, t, s, e, r)
    ensures Frontier(r)
  {
  }

  lemma NearerExplains<N, L>(g: Graph<N, L>, t: N, s: Search<N, L>, e: Edge<N, L>, r: Search<N, L>, n: N)
    requires Explained(g, t, s) && MadeNearer(g, t, s, e, r) && n in r.dist && n != t
    ensures r.dist[n].Fin? <==> n in r.first
    ensures n in r.first ==> Explains(g, t, r, n, r.first[n])
  {
    if n != e.src && n in s.first {
      assert Explains(g, t, s, n, s.first[n]);
    }
  }

  lemma NearerExplained<N, L>(g: Graph<N, L>, t: N, s: Search<N, L>, e: Edge<N, L>, r: Search<N, L>)
    requires Explained(g, t, s) && MadeNearer(g, t, s, e, r)
    ensures Explained(g, t, r)
  {
    forall n <- r.dist.Keys | n != t
      ensures r.dist[n].Fin? <==> n in r.first
      ensures n in r.first ==> Explains(g, t, r, n, r.first[n])
    {
      NearerExplains(g, t, s, e, r, n);
    }
  }

  lemma NearerOrdered<N, L>(g: Graph<N, L>, t: N, s: Search<N, L>, e: Edge<N, L>, r: Search<N, L>)
    requires Ordered(s) && MadeNearer(g, t, s, e, r)
    ensures Ordered(r)
  {
    assert forall i :: 0 <= i < |r.done| ==> r.done[i] != e.src;
  }

  lemma NearerSettled<N, L>(g: Graph<N, L>, t: N, s: Search<N, L>, open: set<Edge<N, L>>, e: Edge<N, L>, r: Search<N, L>)
    requires g.Valid() && Shape(g, t, s) && Settled(g, t, s, open) && MadeNearer(g, t, s, e, r)
    ensures Settled(g, t, r, open - {e})
  {
    forall f <- g.edges | f.dst in r.done && f !in open - {e}
      ensures Le(r.dist[f.src], Via(g, t, r.dist[f.dst], f))
    {
      assert f.dst != e.src && r.dist[f.dst] == s.dist[f.dst];
      if f != e {
        assert Le(s.dist[f.src], Via(g, t, s.dist[f.dst], f));
      }
    }
  }

  lemma NearerKeepsInv<N, L>(g: Graph<N, L>, t: N, s: Search<N, L>, open: set<Edge<N, L>>, e: Edge<N, L>, r: Search<N, L>)
    requires g.Valid() && Inv(g, t, s, open) && MadeNearer(g, t, s, e, r)
    ensures Inv(g, t, r, open - {e})
  {
    hide Shape, Frontier, Explained, Ordered, Settled;
    NearerShape(g, t, s, e, r);
    NearerFrontier(g, t, s, e, r);
    NearerExplained(g, t, s, e, r);
    NearerOrdered(g, t, s, e, r);
    NearerSettled(g, t, s, open, e, r);
  }

  lemma NothingToImprove<N, L>(g: Graph<N, L>, t: N, s: Search<N, L>, open: set<Edge<N, L>>, e: Edge<N, L>)
    requires Inv(g, t, s, open) && e in g.edges
    requires !Lt(Via(g, t, s.dist[e.dst], e), s.dist[e.src])
    ensures Inv(g, t, s, open - {e})
  {
    assert Le(s.dist[e.src], Via(g, t, s.dist[e.dst], e));
  }

  lemma RelaxKeepsInv<N, L>(g: Graph<N, L>, t: N, s: Search<N, L>, open: set<Edge<N, L>>, e: Edge<N, L>)
    requires g.Valid() && Inv(g, t, s, open) && e in g.edges
    requires s.done != [] && e.dst == s.done[|s.done| - 1]
    ensures Inv(g, t, Relax(g, t, s, e), open - {e})
  {
    if Lt(Via(g, t, s.dist[e.dst], e), s.dist[e.src]) {
      RelaxMakesNearer(g, t, s, open, e);
      NearerKeepsInv(g, t, s, open, e, Relax(g, t, s, e));
    } else {
      NothingToImprove(g, t, s, open, e);
    }
  }

  function EdgesInto<N(==), L(==)>(g: Graph<N, L>, n: N): set<Edge<N, L>> {
    set e | e in g.edges && e.dst == n
  }

  lemma TakeShape<N, L>(g: Graph<N, L>, t: N, s: Search<N, L>)
    requires Shape(g, t, s) && s.queue != []
    ensures Shape(g, t, Take(s)) && s.queue[0] !in s.done
  {
    var n, r := s.queue[0], Take(s);
    assert s.queue == [n] + r.queue && n in s.queue;
    assert n !in r.queue && NoDup(r.queue) by {
      assert forall i :: 0 <= i < |r.queue| ==> r.queue[i] == s.queue[i + 1];
    }
    assert NoDup(r.done);
    assert Sorted(r.dist, r.queue) by {
      assert forall i :: 0 <= i < |r.queue| ==> r.queue[i] == s.queue[i + 1];
    }
    forall m <- g.nodes ensures s.dist[m].Fin? <==> m in r.done || m in r.queue {
      assert m in s.queue <==> m == n || m in r.queue;
    }
  }

  lemma TakeFrontier<N, L>(g: Graph<N, L>, t: N, s: Search<N, L>)
    requires Shape(g, t, s) && Frontier(s) && s.queue != []
    ensures Frontier(Take(s))
  {
    var n, r := s.queue[0], Take(s);
    assert r.done[|r.done| - 1] == n;
    forall m <- r.queue ensures Le(s.dist[n], s.dist[m]) {
      var j :| 0 <= j < |r.queue| && r.queue[j] == m;
      assert s.queue[j + 1] == m;
    }
  }

  lemma TakeExplained<N, L>(g: Graph<N, L>, t: N, s: Search<N, L>)
    requires Explained(g, t, s) && s.queue != []
    ensures Explained(g, t, Take(s))
  {
    var r := Take(s);
    forall m <- r.dist.Keys | m != t && m in r.first ensures Explains(g, t, r, m, r.first[m]) {
      assert Explains(g, t, s, m, s.first[m]);
    }
  }

  lemma TakeOrdered<N, L>(g: Graph<N, L>, t: N, s: Search<N, L>)
    requires Explained(g, t, s) && Ordered(s) && s.queue != []
    ensures Ordered(Take(s))
  {
    var n, r := s.queue[0], Take(s);
    forall i | 0 <= i < |r.done| && r.done[i] in r.first
      ensures r.first[r.done[i]].dst in r.done[..i]
    {
      if i < |s.done| {
        assert r.done[..i] == s.done[..i];
      } else {
        assert r.done[..i] == s.done && r.done[i] == n;
        assert Explains(g, t, s, n, s.first[n]);
      }
    }
  }

  lemma TakeKeepsInv<N, L>(g: Graph<N, L>, t: N, s: Search<N, L>)
    requires g.Valid() && Inv(g, t, s, {}) && s.queue != []
    ensures Inv(g, t, Take(s), EdgesInto(g, s.queue[0]))
    ensures s.queue[0] !in s.done
  {
    TakeShape(g, t, s);
    TakeFrontier(g, t, s);
    TakeExplained(g, t, s);
    TakeOrdered(g, t, s);
  }

  // ---------------------------------------------------------------------------------
  // What has been found when the queue is empty

  lemma ViaMonotone<N, L>(g: Graph<N, L>, t: N, a: Ext, b: Ext, e: Edge<N, L>)
    requires Le(a, b)
    ensures Le(Via(g, t, a, e), Via(g, t, b, e))
  {
  }

  lemma {:induction false} NoPathIsShorter<N, L>(g: Graph<N, L>, t: N, s: Search<N, L>, u: N, p: seq<Edge<N, L>>)
    requires g.Valid() && Inv(g, t, s, {}) && s.queue == [] && IsPath(g, u, t, p)
    ensures u in s.dist && Le(s.dist[u], Length(g, p))
  {
    if p != [] {
      var e := p[0];
      NoPathIsShorter(g, t, s, e.dst, p[1..]);
      LengthStep(g, t, p);
      if Length(g, p).Fin? {
        ViaMonotone(g, t, s.dist[e.dst], Length(g, p[1..]), e);
        assert e.dst in s.done;
      }
    }
  }

  /** The path that first edges lead along, from the i-th done node. */
  lemma {:induction false} FoundPath<N, L>(g: Graph<N, L>, t: N, s: Search<N, L>, i: nat) returns (p: seq<Edge<N, L>>)
    requires g.Valid() && Inv(g, t, s, {}) && i < |s.done|
    ensures IsPath(g, s.done[i], t, p) && Length(g, p) == s.dist[s.done[i]]
    ensures FollowsFirst(s, p)
    ensures p != [] ==> s.done[i] != t
    decreases i
  {
    var u := s.done[i];
    if u == t {
      p := [];
    } else {
      assert Explains(g, t, s, u, s.first[u]);
      var e := s.first[u];
      var j :| 0 <= j < i && s.done[j] == e.dst;
      var rest := FoundPath(g, t, s, j);
      PrependFirst(g, t, s, e, rest);
      p := [e] + rest;
    }
  }

  lemma PrependFirst<N, L>(g: Graph<N, L>, t: N, s: Search<N, L>, e: Edge<N, L>, rest: seq<Edge<N, L>>)
    requires g.Valid() && Explains(g, t, s, e.src, e) && e.src in s.first && s.first[e.src] == e
    requires IsPath(g, e.dst, t, rest) && Length(g, rest) == s.dist[e.dst] && FollowsFirst(s, rest)
    requires rest != [] ==> e.dst != t
    ensures var p := [e] + rest;
            IsPath(g, e.src, t, p) && Length(g, p) == s.dist[e.src] && FollowsFirst(s, p)
  {
    var p := [e] + rest;
    assert p[1..] == rest;
    LengthStep(g, t, p);
    assert Length(g, p) == Via(g, t, Length(g, rest), e);
    forall i | 0 <= i < |p| ensures p[i].src in s.first && s.first[p[i].src] == p[i] {
      if i > 0 {
        assert p[i] == rest[i - 1];
      }
    }
  }

  /** Each edge of the path is the first edge recorded for its source. */
  ghost predicate FollowsFirst<N, L>(s: Search<N, L>, p: seq<Edge<N, L>>) {
    forall i :: 0 <= i < |p| ==> p[i].src in s.first && s.first[p[i].src] == p[i]
  }

  lemma FiniteLength<N, L>(g: Graph<N, L>, t: N, s: Search<N, L>, u: N) returns (p: seq<Edge<N, L>>)
    requires g.Valid() && Inv(g, t, s, {}) && s.queue == [] && u in s.dist && s.dist[u].Fin?
    ensures IsPath(g, u, t, p) && Length(g, p) == s.dist[u] && FollowsFirst(s, p)
  {
    var i :| 0 <= i < |s.done| && s.done[i] == u;
    p := FoundPath(g, t, s, i);
  }

  lemma {:induction false} InsertAt<N>(dist: map<N, Ext>, q: seq<N>, n: N, d: Ext, i: nat)
    requires (forall m <- q :: m in dist) && i <= |q|
    requires forall k :: 0 <= k < i ==> !Lt(d, dist[q[k]])
    requires i < |q| ==> Lt(d, dist[q[i]])
    ensures Insert(dist, q, n, d) == q[..i] + [n] + q[i..]
  {
    if i > 0 {
      InsertAt(dist, q[1..], n, d, i - 1);
      assert q[..i] == [q[0]] + q[1..][..i - 1];
    }
  }

  /** A queue without repetition is no longer than the set its nodes come from. */
  lemma {:induction false} NoDupFits<N>(q: seq<N>, all: set<N>)
    requires NoDup(q) && forall n <- q :: n in all
    ensures |q| <= |all|
  {
    if q != [] {
      assert q[0] !in q[1..];
      NoDupFits(q[1..], all - {q[0]});
    }
  }

  /** The outcome of a finished search: no path is shorter than the recorded distance, and
      first edges lead along a path of exactly that length, or the distance is infinite. */
  lemma FinishedSearch<N, L>(g: Graph<N, L>, t: N, s: Search<N, L>)
    requires g.Valid() && Inv(g, t, s, {}) && s.queue == []
    ensures forall u, p :: IsPath(g, u, t, p) ==> u in s.dist && Le(s.dist[u], Length(g, p))
    ensures forall u <- s.dist.Keys :: s.dist[u].Fin? ==>
              exists p :: IsPath(g, u, t, p) && Length(g, p) == s.dist[u] && FollowsFirst(s, p)
  {
    forall u, p | IsPath(g, u, t, p) ensures u in s.dist && Le(s.dist[u], Length(g, p)) {
      NoPathIsShorter(g, t, s, u, p);
    }
    forall u <- s.dist.Keys | s.dist[u].Fin?
      ensures exists p :: IsPath(g, u, t, p) && Length(g, p) == s.dist[u] && FollowsFirst(s, p)
    {
      var p := FiniteLength(g, t, s, u);
    }
  }
}
