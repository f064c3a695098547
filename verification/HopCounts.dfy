/** Breadth-first search as the special case of the weighted search in which every link weighs
    one and transit is free. */
module HopCounts {
  import opened Lists
  import opened ShortestPaths

  function UnitEdge<N, L>(e: Edge<N, L>): Edge<N, L> {
    Edge(e.link, e.src, e.dst, Fin(1.0))
  }

  /** The same graph with unit links and free nodes. */
  function Unit<N(==), L(==)>(g: Graph<N, L>): Graph<N, L> {
    Graph(g.nodes, set e | e in g.edges :: UnitEdge(e), map n | n in g.nodes :: Fin(0.0))
  }

  function UnitPath<N, L>(p: seq<Edge<N, L>>): (q: seq<Edge<N, L>>)
    ensures |q| == |p|
  {
    if p == [] then [] else [UnitEdge(p[0])] + UnitPath(p[1..])
  }

  /** Every path of the graph has a twin with unit weights, whose length is its link count. */
  lemma {:induction false} UnitTwin<N, L>(g: Graph<N, L>, u: N, t: N, p: seq<Edge<N, L>>)
    requires IsPath(g, u, t, p)
    ensures IsPath(Unit(g), u, t, UnitPath(p))
  {
    if p != [] {
      UnitTwin(g, p[0].dst, t, p[1..]);
      assert UnitPath(p)[1..] == UnitPath(p[1..]);
    }
  }

  lemma {:induction false} UnitLength<N, L>(g: Graph<N, L>, u: N, t: N, p: seq<Edge<N, L>>)
    requires (forall e <- g.edges :: e.dst in g.nodes) && IsPath(Unit(g), u, t, p)
    ensures Length(Unit(g), p) == Fin(|p| as real)
  {
    if p != [] {
      UnitLength(g, p[0].dst, t, p[1..]);
      assert p[0].w == Fin(1.0) && Unit(g).cost[p[0].dst] == Fin(0.0) by {
        var e :| e in g.edges && p[0] == UnitEdge(e);
      }
      if |p| == 1 {
        assert p[1..] == [];
      }
    }
  }

  /** In a graph whose links weigh one and whose nodes are free, length is hop count. */
  lemma TwinLength<N, L>(g: Graph<N, L>, u: N, t: N, p: seq<Edge<N, L>>)
    requires (forall e <- g.edges :: e.dst in g.nodes) && IsPath(g, u, t, p)
    ensures Length(Unit(g), UnitPath(p)) == Fin(|p| as real)
  {
    UnitTwin(g, u, t, p);
    UnitLength(g, u, t, UnitPath(p));
  }

  lemma {:induction false} TwinBack<N, L>(g: Graph<N, L>, u: N, t: N, q: seq<Edge<N, L>>) returns (p: seq<Edge<N, L>>)
    requires IsPath(Unit(g), u, t, q)
    ensures IsPath(g, u, t, p) && q == UnitPath(p)
  {
    if q == [] {
      p := [];
    } else {
      var e :| e in g.edges && q[0] == UnitEdge(e);
      var rest := TwinBack(g, e.dst, t, q[1..]);
      p := [e] + rest;
      assert p[1..] == rest;
    }
  }

  lemma NoFarther<N, L>(g: Graph<N, L>, t: N, s: Search<N, L>, s': Search<N, L>, u: N)
    requires g.Valid() && Inv(g, t, s, {}) && Inv(g, t, s', {}) && s.queue == [] == s'.queue
    requires u in s.dist && u in s'.dist
    ensures Le(s.dist[u], s'.dist[u])
  {
    hide Inv, IsPath, Length, Graph.Valid;
    if s'.dist[u].Fin? {
      var p := FiniteLength(g, t, s', u);
      NoPathIsShorter(g, t, s, u, p);
    }
  }

  /** Any two searches that have finished on a graph, however they got there, have recorded the
      same distance for every node. */
  lemma SearchesAgree<N, L>(g: Graph<N, L>, t: N, s: Search<N, L>, s': Search<N, L>)
    requires g.Valid() && Inv(g, t, s, {}) && Inv(g, t, s', {}) && s.queue == [] == s'.queue
    ensures s.dist == s'.dist
  {
    assert s.dist.Keys == g.nodes == s'.dist.Keys;
    hide Inv;
    forall u <- s.dist ensures s.dist[u] == s'.dist[u] {
      NoFarther(g, t, s, s', u);
      NoFarther(g, t, s', s, u);
    }
  }

  // ---------------------------------------------------------------------------------
  // The search

  /** A node met for the first time is one hop farther, and goes to the end of the queue. */
  function Meet<N(==), L(==)>(s: Search<N, L>, e: Edge<N, L>): Search<N, L>
    requires e.src in s.dist && e.dst in s.dist
  {
    if s.dist[e.src].Inf? then
      Search(s.dist[e.src := Add(s.dist[e.dst], Fin(1.0))], s.first[e.src := e], s.done, s.queue + [e.src])
    else s
  }

  /** All nodes met are at most one hop beyond the node taken last. */
  ghost predicate Level<N, L>(s: Search<N, L>) {
    && (forall n <- s.done :: n in s.dist)
    && forall n <- s.dist.Keys :: s.dist[n].Fin? ==>
         Le(s.dist[n], if s.done == [] then Fin(0.0) else Add(s.dist[s.done[|s.done| - 1]], Fin(1.0)))
  }

  lemma StartLevel<N, L>(g: Graph<N, L>, t: N)
    ensures Level(Start<N, L>(g, t))
  {
  }

  lemma TakeKeepsLevel<N, L>(g: Graph<N, L>, t: N, s: Search<N, L>)
    requires Inv(g, t, s, {}) && Level(s) && s.queue != []
    ensures Level(Take(s))
  {
    hide Explained, Ordered, Settled, NoDup;
    var n, r := s.queue[0], Take(s);
    assert n in s.queue && n in s.dist && Le(Fin(0.0), s.dist[n]);
    assert r.done[|r.done| - 1] == n && s.dist[n].Fin?;
  }

  lemma HopLength<N, L>(g: Graph<N, L>, t: N, d: Ext, e: Edge<N, L>)
    requires e in Unit(g).edges && e.dst in Unit(g).nodes
    ensures Via(Unit(g), t, d, e) == Add(d, Fin(1.0))
  {
  }

  /** On a unit graph, first come first served is the same as nearest first. */
  lemma MeetIsRelax<N, L>(g: Graph<N, L>, t: N, s: Search<N, L>, open: set<Edge<N, L>>, e: Edge<N, L>)
    requires Inv(Unit(g), t, s, open) && Level(s) && e in Unit(g).edges
    requires s.done != [] && e.dst == s.done[|s.done| - 1]
    ensures e.src in s.dist && e.dst in s.dist
    ensures Relax(Unit(g), t, s, e) == Meet(s, e) && Level(Meet(s, e))
  {
    assert e.src in s.dist && e.dst in s.dist by {
      hide Explained, Ordered, NoDup, Frontier, Via, Unit;
    }
    hide Explained, Ordered, Settled, NoDup, Frontier, Via, Unit;
    assert e.dst in s.done && e.dst in s.dist && s.dist[e.dst].Fin?;
    HopLength(g, t, s.dist[e.dst], e);
    if s.dist[e.src].Inf? {
      var nd := Add(s.dist[e.dst], Fin(1.0));
      var dist := s.dist[e.src := nd];
      assert e.src !in s.queue && e.src !in s.done;
      forall k | 0 <= k < |s.queue| ensures !Lt(nd, dist[s.queue[k]]) {
        assert s.queue[k] in s.queue;
      }
      InsertAt(dist, s.queue, e.src, nd, |s.queue|);
    }
  }
}
