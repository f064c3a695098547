/** The two shortest-path computations of Topology, on its nodes and links. */
module TopologySearch {
  import opened Lists
  import opened ShortestPaths
  import opened TopologyGraph
  import opened HopCounts

  /** The usable links of the topology, and what its nodes charge. */
  ghost function GraphOf(topo: Topology): Graph<Node, Link>
    requires topo.Valid()
    reads topo`nodes, topo`links, topo.nodes`moduleId, topo.nodes`inLinks, topo.nodes`outLinks
    reads topo.links`srcNode, topo.links`destNode, topo.links`weight, topo.links`enabled
    reads topo.nodes`weight, topo.nodes`enabled
  {
    Graph(set n | n in topo.nodes,
          set l, src, dst | l in topo.links && src in topo.nodes && dst in topo.nodes && l.srcNode == src
                            && l.destNode == dst && l.enabled && src.enabled :: Edge(l, src, dst, l.weight),
          map n | n in topo.nodes :: n.weight)
  }

  /** The nodes hold what the search has recorded. */
  ghost predicate Holds(nodes: seq<Node>, s: Search<Node, Link>)
    reads nodes`dist, nodes`outPath
  {
    forall n <- nodes :: n in s.dist && n.dist == s.dist[n]
                         && n.outPath == if n in s.first then s.first[n].link else null
  }

  method RemoveFromList(q: seq<Node>, n: Node) returns (r: seq<Node>)
    ensures r == Remove(q, n)
  {
    r := [];
    var i := |q|;
    while i > 0
      invariant 0 <= i <= |q| && r == Remove(q[i..], n)
    {
      i := i - 1;
      assert q[i..][1..] == q[i + 1..];
      if q[i] != n {
        r := [q[i]] + r;
      }
    }
    assert q[0..] == q;
  }

  /** The insertion loop: before the first node of the list that is farther. */
  method InsertByDistance(q: seq<Node>, n: Node, d: Ext, ghost dist: map<Node, Ext>) returns (r: seq<Node>)
    requires forall m <- q :: m in dist && m.dist == dist[m]
    ensures r == Insert(dist, q, n, d)
  {
    var it := 0;
    while it < |q| && !Lt(d, q[it].dist)
      invariant 0 <= it <= |q| && forall k :: 0 <= k < it ==> !Lt(d, dist[q[k]])
    {
      it := it + 1;
    }
    InsertAt(dist, q, n, d, it);
    r := q[..it] + [n] + q[it..];
  }

  lemma InLinkKnown(topo: Topology, dest: Node, i: nat)
    requires topo.Valid() && dest in topo.nodes && i < |dest.inLinks|
    ensures var l := dest.inLinks[i];
            l in topo.links && l.srcNode != null && l.srcNode in topo.nodes && l.destNode == dest
  {
    assert InOk(dest, topo.links);
  }

  /** An in-link is an edge of the graph exactly if it and its source are enabled. */
  lemma EdgesAreUsableLinks(topo: Topology, dest: Node, i: nat, src: Node)
    requires topo.Valid() && dest in topo.nodes && i < |dest.inLinks| && dest.inLinks[i].srcNode == src
    ensures var l := dest.inLinks[i];
            && (l.enabled && src.enabled ==> Edge(l, src, dest, l.weight) in GraphOf(topo).edges)
            && forall e <- GraphOf(topo).edges :: e.link == l ==>
                 l.enabled && src.enabled && e == Edge(l, src, dest, l.weight)
  {
    InLinkKnown(topo, dest, i);
  }

  lemma EdgesIntoAreListed(topo: Topology, dest: Node)
    requires topo.Valid() && dest in topo.nodes
    ensures forall e <- EdgesInto(GraphOf(topo), dest) :: e.link in dest.inLinks
  {
    assert InOk(dest, topo.links);
  }

  /** The body of the inner loop: try to reach the target from `src` through `link`. */
  method TryLink(topo: Topology, t: Node, dest: Node, link: Link, src: Node, q: seq<Node>,
                 ghost g: Graph<Node, Link>, ghost s: Search<Node, Link>)
    returns (q': seq<Node>, ghost s': Search<Node, Link>)
    requires src in topo.nodes && dest in topo.nodes && q == s.queue
    requires Holds(topo.nodes, s) && s.dist.Keys == (set n | n in topo.nodes)
    requires forall n <- q :: n in topo.nodes
    requires dest in g.cost && g.cost[dest] == dest.weight
    modifies topo.nodes`dist, topo.nodes`outPath
    ensures s' == Relax(g, t, s, Edge(link, src, dest, link.weight))
    ensures Holds(topo.nodes, s') && q' == s'.queue
  {
    ghost var e := Edge(link, src, dest, link.weight);
    q', s' := q, s;
    var newdist := Add(dest.dist, link.weight);
    if dest != t {
      newdist := Add(newdist, dest.weight);
    }
    assert newdist == Via(g, t, s.dist[dest], e);
    if newdist != Inf && Lt(newdist, src.dist) {
      if src.dist != Inf {
        q' := RemoveFromList(q', src);
        RemoveFacts(q, src);
      }
      src.dist := newdist;
      src.outPath := link;
      ghost var dist := s.dist[src := newdist];
      q' := InsertByDistance(q', src, newdist, dist);
      s' := Search(dist, s.first[src := e], s.done, q');
    }
  }

  /** Resets all nodes for a search towards `t`. */
  method ClearPathInfo(topo: Topology, t: Node, ghost g: Graph<Node, Link>) returns (q: seq<Node>)
    requires t in topo.nodes && g.nodes == set n | n in topo.nodes
    modifies topo`target, topo.nodes`dist, topo.nodes`outPath
    ensures topo.target == t && q == Start<Node, Link>(g, t).queue && Holds(topo.nodes, Start(g, t))
  {
    topo.target := t;
    var i := 0;
    while i < |topo.nodes|
      modifies topo.nodes`dist, topo.nodes`outPath
      invariant 0 <= i <= |topo.nodes|
      invariant forall n <- topo.nodes[..i] :: n.dist == Inf && n.outPath == null
    {
      topo.nodes[i].dist := Inf;
      topo.nodes[i].outPath := null;
      assert topo.nodes[..i + 1] == topo.nodes[..i] + [topo.nodes[i]];
      i := i + 1;
    }
    assert topo.nodes[..i] == topo.nodes;
    t.dist := Fin(0.0);
    q := [t];
  }

  /** What holds while the links into `dest`, the node taken last, are tried. */
  ghost predicate Trying(topo: Topology, g: Graph<Node, Link>, t: Node, s: Search<Node, Link>, q: seq<Node>,
                         open: set<Edge<Node, Link>>, done: seq<Node>)
    reads topo`nodes, topo.nodes`dist, topo.nodes`outPath
  {
    && Holds(topo.nodes, s) && q == s.queue && Inv(g, t, s, open) && s.done == done
    && open <= g.edges
  }

  lemma SearchKnowsItsNodes(g: Graph<Node, Link>, t: Node, s: Search<Node, Link>, open: set<Edge<Node, Link>>)
    requires Inv(g, t, s, open)
    ensures s.dist.Keys == g.nodes && forall n <- s.queue :: n in g.nodes
  {
  }

  /** One round of the inner loop. */
  method TryInLink(topo: Topology, t: Node, dest: Node, i: nat, q: seq<Node>,
                   ghost g: Graph<Node, Link>, ghost s: Search<Node, Link>, ghost open: set<Edge<Node, Link>>)
    returns (q': seq<Node>, ghost s': Search<Node, Link>, ghost e: Edge<Node, Link>)
    requires topo.Valid() && g == GraphOf(topo) && g.Valid() && dest in topo.nodes && i < |dest.inLinks|
    requires s.done != [] && s.done[|s.done| - 1] == dest
    requires Trying(topo, g, t, s, q, open, s.done)
    modifies topo.nodes`dist, topo.nodes`outPath
    ensures Trying(topo, g, t, s', q', open - {e}, s.done)
    ensures forall f <- g.edges :: f.link == dest.inLinks[i] ==> f == e
  {
    hide Inv, NoDup, OutsOk, InsOk, Graph.Valid;
    q', s' := q, s;
    var link := dest.inLinks[i];
    InLinkKnown(topo, dest, i);
    var src: Node := link.srcNode;
    EdgesAreUsableLinks(topo, dest, i, src);
    e := Edge(link, src, dest, link.weight);
    SearchKnowsItsNodes(g, t, s, open);
    if link.enabled && src.enabled {
      RelaxKeepsInv(g, t, s, open, e);
      q', s' := TryLink(topo, t, dest, link, src, q, g, s);
    } else {
      assert open - {e} == open;
    }
  }

  /** The inner loop: tries all links into `dest`. */
  method TryLinksInto(topo: Topology, t: Node, dest: Node, q: seq<Node>,
                      ghost g: Graph<Node, Link>, ghost s: Search<Node, Link>)
    returns (q': seq<Node>, ghost s': Search<Node, Link>)
    requires topo.Valid() && g == GraphOf(topo) && g.Valid() && t in topo.nodes && dest in topo.nodes
    requires s.done != [] && s.done[|s.done| - 1] == dest
    requires Trying(topo, g, t, s, q, EdgesInto(g, dest), s.done)
    modifies topo.nodes`dist, topo.nodes`outPath
    ensures Trying(topo, g, t, s', q', {}, s.done)
  {
    hide Inv, NoDup, OutsOk, InsOk, Holds, Graph.Valid, Topology.Valid;
    q', s' := q, s;
    ghost var open := EdgesInto(g, dest);
    EdgesIntoAreListed(topo, dest);
    var i := 0;
    while i < |dest.inLinks|
      invariant 0 <= i <= |dest.inLinks|
      invariant Trying(topo, g, t, s', q', open, s.done)
      invariant forall e <- open :: e.link in dest.inLinks[i..]
    {
      assert dest.inLinks[i..] == [dest.inLinks[i]] + dest.inLinks[i + 1..];
      ghost var e;
      q', s', e := TryInLink(topo, t, dest, i, q', g, s', open);
      open := open - {e};
      i := i + 1;
    }
    assert open == {};
  }

  /** Every node taken from the queue is one that was not taken before. */
  lemma RoundsLeft(g: Graph<Node, Link>, t: Node, s: Search<Node, Link>)
    requires g.Valid() && Inv(g, t, s, {}) && s.queue != []
    ensures |s.done| < |g.nodes|
  {
    TakeKeepsInv(g, t, s);
    NoDupFits(Take(s).done, g.nodes);
  }

  /** Each link of the path is the recorded outPath of the node it leaves. */
  ghost predicate FollowsOutPaths(p: seq<Edge<Node, Link>>)
    reads set i | 0 <= i < |p| :: p[i].src
  {
    forall i :: 0 <= i < |p| ==> p[i].src.outPath == p[i].link
  }

  lemma ReadOff(topo: Topology, g: Graph<Node, Link>, t: Node, s: Search<Node, Link>)
    requires g.nodes == (set n | n in topo.nodes) && g.Valid() && Inv(g, t, s, {}) && s.queue == []
    requires Holds(topo.nodes, s)
    ensures forall u <- topo.nodes, p | IsPath(g, u, t, p) :: Le(u.dist, Length(g, p))
    ensures forall u <- topo.nodes | u.dist.Fin? ::
              exists p :: IsPath(g, u, t, p) && Length(g, p) == u.dist && FollowsOutPaths(p)
  {
    FinishedSearch(g, t, s);
    forall u <- topo.nodes, p | IsPath(g, u, t, p) ensures Le(u.dist, Length(g, p)) {
    }
    forall u <- topo.nodes | u.dist.Fin?
      ensures exists p :: IsPath(g, u, t, p) && Length(g, p) == u.dist && FollowsOutPaths(p)
    {
      var p :| IsPath(g, u, t, p) && Length(g, p) == s.dist[u] && FollowsFirst(s, p);
      SourcesAreNodes(g, t, s, p);
    }
  }

  lemma SourcesAreNodes(g: Graph<Node, Link>, t: Node, s: Search<Node, Link>, p: seq<Edge<Node, Link>>)
    requires Inv(g, t, s, {}) && FollowsFirst(s, p)
    ensures forall i :: 0 <= i < |p| ==> p[i].src in g.nodes
  {
  }

  lemma TakeKeepsHolds(nodes: seq<Node>, s: Search<Node, Link>)
    requires Holds(nodes, s) && s.queue != []
    ensures Holds(nodes, Take(s))
  {
  }

  lemma TakeFirst(topo: Topology, g: Graph<Node, Link>, t: Node, s: Search<Node, Link>, q: seq<Node>)
    requires g.nodes == (set n | n in topo.nodes) && g.Valid() && q != []
    requires Trying(topo, g, t, s, q, {}, s.done)
    ensures var r := Take(s);
            && Trying(topo, g, t, r, q[1..], EdgesInto(g, q[0]), r.done)
            && q[0] in topo.nodes && r.done == s.done + [q[0]]
            && |s.done| < |g.nodes|
  {
    hide Inv, Holds, Graph.Valid;
    RoundsLeft(g, t, s);
    TakeKeepsInv(g, t, s);
    TakeKeepsHolds(topo.nodes, s);
    SearchKnowsItsNodes(g, t, s, {});
    assert q[0] in s.queue;
    assert Take(s).done == s.done + [q[0]] && Take(s).queue == q[1..];
    assert EdgesInto(g, q[0]) <= g.edges;
  }

  /** The outer loop. */
  method WeightedLoop(topo: Topology, t: Node, ghost g: Graph<Node, Link>) returns (ghost s: Search<Node, Link>)
    requires topo.Valid() && g == GraphOf(topo) && g.Valid() && t in topo.nodes
    modifies topo`target, topo.nodes`dist, topo.nodes`outPath
    ensures topo.target == t && Holds(topo.nodes, s) && Inv(g, t, s, {}) && s.queue == []
  {
    hide Inv, NoDup, OutsOk, InsOk, Holds, Graph.Valid, Topology.Valid, EdgesInto;
    var q := ClearPathInfo(topo, t, g);
    s := Start(g, t);
    StartInv<Node, Link>(g, t);
    while q != []
      modifies topo.nodes`dist, topo.nodes`outPath
      invariant Trying(topo, g, t, s, q, {}, s.done)
      decreases |g.nodes| - |s.done|
    {
      TakeFirst(topo, g, t, s, q);
      var dest := q[0];
      q := q[1..];
      s := Take(s);
      q, s := TryLinksInto(topo, t, dest, q, g, s);
    }
  }

  method SearchTowards(topo: Topology, t: Node, ghost g: Graph<Node, Link>) returns (ghost s: Search<Node, Link>)
    requires topo.Valid() && g == GraphOf(topo) && g.Valid() && t in topo.nodes
    modifies topo`target, topo.nodes`dist, topo.nodes`outPath
    ensures topo.target == t && topo.Valid() && GraphOf(topo) == g
    ensures Holds(topo.nodes, s) && Inv(g, t, s, {}) && s.queue == []
    ensures forall u <- topo.nodes, p | IsPath(g, u, t, p) :: Le(u.dist, Length(g, p))
    ensures forall u <- topo.nodes | u.dist.Fin? ::
              exists p :: IsPath(g, u, t, p) && Length(g, p) == u.dist && FollowsOutPaths(p)
  {
    hide Inv, Holds, Graph.Valid, Topology.Valid, IsPath, Length, FollowsOutPaths;
    s := WeightedLoop(topo, t, g);
    ReadOff(topo, g, t, s);
  }

  /** Dijkstra's algorithm with a hand-sorted list. Fails without a target. Otherwise every
      node's dist is the minimum over all usable paths to the target of the link weights plus
      the weights of the nodes strictly between, infinity if there is none, and following
      outPath from the node reaches the target at exactly that cost. `s` is the finished search. */
  method CalculateWeightedSingleShortestPathsTo(topo: Topology, target: Node?, ghost g: Graph<Node, Link>)
    returns (ok: bool, ghost s: Search<Node, Link>)
    requires topo.Valid() && g == GraphOf(topo) && g.Valid() && (target != null ==> target in topo.nodes)
    modifies topo`target, topo.nodes`dist, topo.nodes`outPath
    ensures topo.Valid() && GraphOf(topo) == g
    ensures ok <==> target != null
    ensures ok ==> topo.target == target
    ensures ok ==> forall u <- topo.nodes, p | IsPath(g, u, target, p) :: Le(u.dist, Length(g, p))
    ensures ok ==> forall u <- topo.nodes | u.dist.Fin? ::
              exists p :: IsPath(g, u, target, p) && Length(g, p) == u.dist && FollowsOutPaths(p)
    ensures ok ==> Holds(topo.nodes, s) && Inv(g, target, s, {}) && s.queue == []
  {
    hide Graph.Valid, Topology.Valid, IsPath, Length, FollowsOutPaths, Inv, Holds;
    ok := target != null;
    if ok {
      s := SearchTowards(topo, target, g);
    } else {
      s := Search(map[], map[], [], []);
    }
  }

  // ---------------------------------------------------------------------------------
  // Breadth-first search

  /** An in-link is an edge of the unit graph exactly if it and its source are enabled. */
  lemma HopsAreUsableLinks(topo: Topology, dest: Node, i: nat, src: Node)
    requires topo.Valid() && dest in topo.nodes && i < |dest.inLinks| && dest.inLinks[i].srcNode == src
    ensures var l := dest.inLinks[i];
            && (l.enabled && src.enabled ==> Edge(l, src, dest, Fin(1.0)) in Unit(GraphOf(topo)).edges)
            && forall e <- Unit(GraphOf(topo)).edges :: e.link == l ==>
                 l.enabled && src.enabled && e == Edge(l, src, dest, Fin(1.0))
  {
    EdgesAreUsableLinks(topo, dest, i, src);
    var l := dest.inLinks[i];
    if l.enabled && src.enabled {
      assert UnitEdge(Edge(l, src, dest, l.weight)) in Unit(GraphOf(topo)).edges;
    }
  }

  lemma HopsIntoAreListed(topo: Topology, dest: Node)
    requires topo.Valid() && dest in topo.nodes
    ensures forall e <- EdgesInto(Unit(GraphOf(topo)), dest) :: e.link in dest.inLinks
  {
    EdgesIntoAreListed(topo, dest);
    forall e <- EdgesInto(Unit(GraphOf(topo)), dest) ensures e.link in dest.inLinks {
      var f :| f in GraphOf(topo).edges && e == UnitEdge(f);
      assert f in EdgesInto(GraphOf(topo), dest);
    }
  }

  lemma UnitGraphValid(topo: Topology)
    requires topo.Valid()
    ensures Unit(GraphOf(topo)).Valid() && Unit(GraphOf(topo)).nodes == set n | n in topo.nodes
  {
  }

  /** The body of the inner loop: `w` is met through `link`. */
  method MeetThrough(topo: Topology, v: Node, link: Link, w: Node, q: seq<Node>, ghost s: Search<Node, Link>)
    returns (q': seq<Node>, ghost s': Search<Node, Link>)
    requires w in topo.nodes && v in topo.nodes && q == s.queue && Holds(topo.nodes, s)
    modifies topo.nodes`dist, topo.nodes`outPath
    ensures s' == Meet(s, Edge(link, w, v, Fin(1.0)))
    ensures Holds(topo.nodes, s') && q' == s'.queue
  {
    q', s' := q, s;
    if w.dist == Inf {
      w.dist := Add(v.dist, Fin(1.0));
      w.outPath := link;
      q' := q + [w];
      ghost var e := Edge(link, w, v, Fin(1.0));
      s' := Search(s.dist[w := w.dist], s.first[w := e], s.done, q');
    }
  }

  method MeetInLink(topo: Topology, t: Node, v: Node, i: nat, q: seq<Node>,
                    ghost g: Graph<Node, Link>, ghost s: Search<Node, Link>, ghost open: set<Edge<Node, Link>>)
    returns (q': seq<Node>, ghost s': Search<Node, Link>, ghost e: Edge<Node, Link>)
    requires topo.Valid() && g == Unit(GraphOf(topo)) && v in topo.nodes && i < |v.inLinks|
    requires s.done != [] && s.done[|s.done| - 1] == v
    requires Trying(topo, g, t, s, q, open, s.done) && Level(s)
    modifies topo.nodes`dist, topo.nodes`outPath
    ensures Trying(topo, g, t, s', q', open - {e}, s.done) && Level(s')
    ensures forall f <- g.edges :: f.link == v.inLinks[i] ==> f == e
  {
    hide Inv, NoDup, OutsOk, InsOk, Graph.Valid, Unit, Level;
    q', s' := q, s;
    var link := v.inLinks[i];
    InLinkKnown(topo, v, i);
    var w: Node := link.srcNode;
    HopsAreUsableLinks(topo, v, i, w);
    e := Edge(link, w, v, Fin(1.0));
    if link.enabled && w.enabled {
      UnitGraphValid(topo);
      RelaxKeepsInv(g, t, s, open, e);
      MeetIsRelax(GraphOf(topo), t, s, open, e);
      q', s' := MeetThrough(topo, v, link, w, q, s);
    } else {
      assert open - {e} == open;
    }
  }

  method MeetNeighbours(topo: Topology, t: Node, v: Node, q: seq<Node>,
                        ghost g: Graph<Node, Link>, ghost s: Search<Node, Link>)
    returns (q': seq<Node>, ghost s': Search<Node, Link>)
    requires topo.Valid() && g == Unit(GraphOf(topo)) && t in topo.nodes && v in topo.nodes
    requires s.done != [] && s.done[|s.done| - 1] == v
    requires Trying(topo, g, t, s, q, EdgesInto(g, v), s.done) && Level(s)
    modifies topo.nodes`dist, topo.nodes`outPath
    ensures Trying(topo, g, t, s', q', {}, s.done) && Level(s')
  {
    hide Inv, NoDup, OutsOk, InsOk, Holds, Graph.Valid, Topology.Valid, Unit, Level;
    q', s' := q, s;
    ghost var open := EdgesInto(g, v);
    HopsIntoAreListed(topo, v);
    var i := 0;
    while i < |v.inLinks|
      invariant 0 <= i <= |v.inLinks|
      invariant Trying(topo, g, t, s', q', open, s.done) && Level(s')
      invariant forall e <- open :: e.link in v.inLinks[i..]
    {
      assert v.inLinks[i..] == [v.inLinks[i]] + v.inLinks[i + 1..];
      ghost var e;
      q', s', e := MeetInLink(topo, t, v, i, q', g, s', open);
      open := open - {e};
      i := i + 1;
    }
    assert open == {};
  }

  method HopLoop(topo: Topology, t: Node, ghost g: Graph<Node, Link>) returns (ghost s: Search<Node, Link>)
    requires topo.Valid() && g == Unit(GraphOf(topo)) && g.Valid() && t in topo.nodes
    requires g.nodes == set n | n in topo.nodes
    modifies topo`target, topo.nodes`dist, topo.nodes`outPath
    ensures topo.target == t && Holds(topo.nodes, s) && Inv(g, t, s, {}) && s.queue == []
  {
    hide Inv, NoDup, OutsOk, InsOk, Holds, Graph.Valid, Topology.Valid, EdgesInto, Unit, Level;
    var q := ClearPathInfo(topo, t, g);
    s := Start(g, t);
    StartInv<Node, Link>(g, t);
    StartLevel<Node, Link>(g, t);
    while q != []
      modifies topo.nodes`dist, topo.nodes`outPath
      invariant Trying(topo, g, t, s, q, {}, s.done) && Level(s)
      decreases |g.nodes| - |s.done|
    {
      TakeFirst(topo, g, t, s, q);
      TakeKeepsLevel(g, t, s);
      var v := q[0];
      q := q[1..];
      s := Take(s);
      q, s := MeetNeighbours(topo, t, v, q, g, s);
    }
  }

  method HopsTowards(topo: Topology, t: Node, ghost g: Graph<Node, Link>) returns (ghost s: Search<Node, Link>)
    requires topo.Valid() && g == Unit(GraphOf(topo)) && t in topo.nodes
    modifies topo`target, topo.nodes`dist, topo.nodes`outPath
    ensures topo.target == t && topo.Valid() && Unit(GraphOf(topo)) == g
    ensures Holds(topo.nodes, s) && Inv(g, t, s, {}) && s.queue == []
    ensures forall u <- topo.nodes, p | IsPath(g, u, t, p) :: Le(u.dist, Length(g, p))
    ensures forall u <- topo.nodes | u.dist.Fin? ::
              exists p :: IsPath(g, u, t, p) && Length(g, p) == u.dist && FollowsOutPaths(p)
  {
    hide Inv, Holds, Graph.Valid, Topology.Valid, IsPath, Length, FollowsOutPaths, Unit, GraphOf;
    UnitGraphValid(topo);
    s := HopLoop(topo, t, g);
    ReadOff(topo, g, t, s);
  }

  /** Breadth-first search. Fails without a target. Otherwise every node's dist is the least
      number of usable links to the target, infinity if there is no path, and following
      outPath from the node reaches the target over that many links. `s` is the finished search. */
  method CalculateUnweightedSingleShortestPathsTo(topo: Topology, target: Node?, ghost g: Graph<Node, Link>)
    returns (ok: bool, ghost s: Search<Node, Link>)
    requires topo.Valid() && g == GraphOf(topo) && (target != null ==> target in topo.nodes)
    modifies topo`target, topo.nodes`dist, topo.nodes`outPath
    ensures topo.Valid() && GraphOf(topo) == g
    ensures ok <==> target != null
    ensures ok ==> topo.target == target
    ensures ok ==> forall u <- topo.nodes, p | IsPath(g, u, target, p) :: Le(u.dist, Fin(|p| as real))
    ensures ok ==> forall u <- topo.nodes | u.dist.Fin? ::
              exists p :: IsPath(g, u, target, p) && Fin(|p| as real) == u.dist && FollowsOutPaths(p)
    ensures ok ==> Holds(topo.nodes, s) && Inv(Unit(g), target, s, {}) && s.queue == []
  {
    hide Graph.Valid, Topology.Valid, IsPath, Length, FollowsOutPaths, Unit, Inv, Holds;
    ok := target != null;
    s := Search(map[], map[], [], []);
    if ok {
      s := HopsTowards(topo, target, Unit(g));
      EdgesEndInGraph(topo, g);
      var t: Node := target;
      forall u <- topo.nodes, p | IsPath(g, u, t, p) ensures Le(u.dist, Fin(|p| as real)) {
        UnitTwin(g, u, t, p);
        TwinLength(g, u, t, p);
      }
      forall u <- topo.nodes | u.dist.Fin?
        ensures exists p :: IsPath(g, u, t, p) && Fin(|p| as real) == u.dist && FollowsOutPaths(p)
      {
        var q :| IsPath(Unit(g), u, t, q) && Length(Unit(g), q) == u.dist && FollowsOutPaths(q);
        var p := TwinBack(g, u, t, q);
        TwinLength(g, u, t, p);
        TwinFollows(p);
      }
    }
  }

  lemma EdgesEndInGraph(topo: Topology, g: Graph<Node, Link>)
    requires topo.Valid() && g == GraphOf(topo)
    ensures forall e <- g.edges :: e.dst in g.nodes
  {
  }

  lemma {:induction false} TwinFollows(p: seq<Edge<Node, Link>>)
    requires FollowsOutPaths(UnitPath(p))
    ensures FollowsOutPaths(p)
  {
    if p != [] {
      var q := UnitPath(p);
      assert q[0] == UnitEdge(p[0]) && q[1..] == UnitPath(p[1..]);
      assert FollowsOutPaths(q[1..]) by {
        assert forall i :: 0 <= i < |q[1..]| ==> q[1..][i] == q[i + 1];
      }
      TwinFollows(p[1..]);
      assert forall i :: 0 <= i < |p[1..]| ==> p[1..][i] == p[i + 1];
      assert q[0].src.outPath == q[0].link;
    }
  }

  lemma SameDistances(nodes: seq<Node>, s: Search<Node, Link>, hops: Search<Node, Link>)
    requires Holds(nodes, hops) && s.dist == hops.dist
    ensures forall n <- nodes :: n in s.dist && n.dist == s.dist[n]
  {
  }

  /** Where every usable link weighs one and every node is free, the weighted search followed by
      breadth-first search finds the same distance for every node once more. The map returned is
      what the weighted search ended with. */
  method BothSearches(topo: Topology, target: Node, ghost g: Graph<Node, Link>) returns (ghost weighted: map<Node, Ext>)
    requires topo.Valid() && g == GraphOf(topo) && g == Unit(g) && target in topo.nodes
    modifies topo`target, topo.nodes`dist, topo.nodes`outPath
    ensures topo.Valid() && GraphOf(topo) == g
    ensures exists s :: Inv(g, target, s, {}) && s.queue == [] && s.dist == weighted
    ensures forall n <- topo.nodes :: n in weighted && n.dist == weighted[n]
    ensures forall n <- topo.nodes, p | IsPath(g, n, target, p) :: Le(weighted[n], Length(g, p))
  {
    UnitGraphValid(topo);
    hide Graph.Valid, Topology.Valid, IsPath, Length, FollowsOutPaths, Unit, Inv, Holds, GraphOf;
    var okWeighted, s := CalculateWeightedSingleShortestPathsTo(topo, target, g);
    var okHops, h := CalculateUnweightedSingleShortestPathsTo(topo, target, g);
    SearchesAgree(g, target, s, h);
    SameDistances(topo.nodes, s, h);
    weighted := s.dist;
    assert Inv(g, target, s, {}) && s.queue == [] && s.dist == weighted;
    forall n <- topo.nodes, p | IsPath(g, n, target, p) ensures Le(weighted[n], Length(g, p)) {
      NoPathIsShorter(g, target, s, n, p);
    }
  }
}
