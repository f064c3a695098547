/** The graph that Topology keeps: nodes sorted by module id, and links that are listed both
    at the node they leave and at the node they enter. */
module TopologyGraph {
  import opened Lists
  import opened ShortestPaths

  type int32 = x: int | -0x8000_0000 <= x < 0x8000_0000

  class Node {
    var moduleId: int32
    var weight: Ext
    var enabled: bool
    var inLinks: seq<Link>
    var outLinks: seq<Link>
    var dist: Ext
    var outPath: Link?

    constructor (moduleId: int32)
      ensures this.moduleId == moduleId && weight == Fin(0.0) && enabled
      ensures inLinks == [] && outLinks == [] && dist == Inf && outPath == null
    {
      this.moduleId, weight, enabled := moduleId, Fin(0.0), true;
      inLinks, outLinks, dist, outPath := [], [], Inf, null;
    }
  }

  class Link {
    var srcNode: Node?
    var srcGateId: int
    var destNode: Node?
    var destGateId: int
    var weight: Ext
    var enabled: bool

    constructor (weight: Ext)
      ensures srcNode == null && destNode == null && srcGateId == destGateId == -1
      ensures this.weight == weight && enabled
    {
      srcNode, destNode, srcGateId, destGateId := null, null, -1, -1;
      this.weight, enabled := weight, true;
    }
  }

  /** The id as an unsigned number, by which nodes are ordered; -1 comes last. */
  function Key(id: int32): nat {
    if id < 0 then id + 0x1_0000_0000 else id
  }

  ghost predicate SortedById(ns: seq<Node>)
    reads ns`moduleId
  {
    forall i, j :: 0 <= i < j < |ns| ==> Key(ns[i].moduleId) <= Key(ns[j].moduleId)
  }

  /** `n` lists as outgoing exactly those of the links `ls` that leave it, each once. */
  ghost predicate OutOk(n: Node, ls: set<Link>)
    reads n`outLinks, ls`srcNode
  {
    && NoDup(n.outLinks)
    && (forall l <- n.outLinks :: l in ls && l.srcNode == n)
    && (forall l <- ls :: l.srcNode == n ==> l in n.outLinks)
  }

  ghost predicate InOk(n: Node, ls: set<Link>)
    reads n`inLinks, ls`destNode
  {
    && NoDup(n.inLinks)
    && (forall l <- n.inLinks :: l in ls && l.destNode == n)
    && (forall l <- ls :: l.destNode == n ==> l in n.inLinks)
  }

  ghost predicate OutsOk(ns: seq<Node>, ls: set<Link>)
    reads ns`outLinks, ls`srcNode
  {
    forall n <- ns :: OutOk(n, ls)
  }

  ghost predicate InsOk(ns: seq<Node>, ls: set<Link>)
    reads ns`inLinks, ls`destNode
  {
    forall n <- ns :: InOk(n, ls)
  }

  ghost predicate EndsOk(ns: seq<Node>, ls: set<Link>)
    reads ls`srcNode, ls`destNode
  {
    forall l <- ls :: l.srcNode in ns && l.destNode in ns
  }

  /** `ns` with `node` put in at `index`. */
  function Inserted(ns: seq<Node>, index: nat, node: Node): seq<Node>
    requires index <= |ns|
  {
    ns[..index] + [node] + ns[index..]
  }

  lemma InsertedAt(ns: seq<Node>, index: nat, node: Node)
    requires index <= |ns|
    ensures var r := Inserted(ns, index, node);
            && |r| == |ns| + 1
            && (forall i :: 0 <= i < |r| ==> r[i] == if i < index then ns[i] else if i == index then node else ns[i - 1])
            && (forall n :: n in r <==> n == node || n in ns)
  {
    var r := Inserted(ns, index, node);
    assert forall i :: 0 <= i < |ns| ==> ns[i] == r[if i < index then i else i + 1];
  }

  lemma InsertedInOrder(ns: seq<Node>, index: nat, node: Node)
    requires index <= |ns| && NoDup(ns) && SortedById(ns) && node !in ns
    requires forall i :: 0 <= i < index ==> Key(ns[i].moduleId) <= Key(node.moduleId)
    requires forall i :: index <= i < |ns| ==> Key(node.moduleId) <= Key(ns[i].moduleId)
    ensures NoDup(Inserted(ns, index, node)) && SortedById(Inserted(ns, index, node))
  {
    InsertedAt(ns, index, node);
  }

  lemma InsertedKeepsLists(ns: seq<Node>, index: nat, node: Node, ls: set<Link>)
    requires index <= |ns| && OutsOk(ns, ls) && InsOk(ns, ls) && EndsOk(ns, ls)
    requires node !in ns && node.inLinks == [] == node.outLinks
    ensures var r := Inserted(ns, index, node); OutsOk(r, ls) && InsOk(r, ls) && EndsOk(r, ls)
  {
    InsertedAt(ns, index, node);
  }

  class Topology {
    var nodes: seq<Node>
    var target: Node?
    ghost var links: set<Link>

    ghost predicate Valid()
      reads this`nodes, this`links, nodes`moduleId, nodes`inLinks, nodes`outLinks, links`srcNode, links`destNode
    {
      NoDup(nodes) && SortedById(nodes) && EndsOk(nodes, links) && OutsOk(nodes, links) && InsOk(nodes, links)
    }

    constructor ()
      ensures Valid() && nodes == [] && links == {}
    {
      nodes, target, links := [], null, {};
    }

    // -------------------------------------------------------------------------------
    // Nodes

    /** The first position whose node's key is not below `key`. */
    method LowerBound(key: nat) returns (pos: nat)
      requires SortedById(nodes)
      ensures pos <= |nodes|
      ensures forall i :: 0 <= i < pos ==> Key(nodes[i].moduleId) < key
      ensures forall i :: pos <= i < |nodes| ==> key <= Key(nodes[i].moduleId)
    {
      pos := 0;
      var count := |nodes|;
      while count > 0
        invariant 0 <= count && pos + count <= |nodes|
        invariant forall i :: 0 <= i < pos ==> Key(nodes[i].moduleId) < key
        invariant forall i :: pos + count <= i < |nodes| ==> key <= Key(nodes[i].moduleId)
      {
        var step := count / 2;
        if Key(nodes[pos + step].moduleId) < key {
          pos := pos + step + 1;
          count := count - step - 1;
        } else {
          count := step;
        }
      }
    }

    method AddNode(node: Node) returns (index: nat)
      requires Valid() && node !in nodes && node.inLinks == [] == node.outLinks
      modifies this`nodes
      ensures Valid() && links == old(links)
      ensures index <= |old(nodes)| && nodes == Inserted(old(nodes), index, node)
      ensures node.moduleId == -1 ==> index == |old(nodes)|
    {
      hide NoDup, OutsOk, InsOk, EndsOk;
      if node.moduleId == -1 {
        index := |nodes|;
        InsertedInOrder(nodes, index, node);
        InsertedKeepsLists(nodes, index, node, links);
        assert Inserted(nodes, index, node) == nodes + [node];
        nodes := nodes + [node];
      } else {
        index := LowerBound(Key(node.moduleId));
        InsertedInOrder(nodes, index, node);
        InsertedKeepsLists(nodes, index, node, links);
        nodes := nodes[..index] + [node] + nodes[index..];
      }
    }

    /** The node of a module, exactly if there is one. */
    method GetNodeFor(id: int32) returns (r: Node?)
      requires Valid()
      ensures r != null ==> r in nodes && r.moduleId == id
      ensures r == null ==> forall n <- nodes :: n.moduleId != id
    {
      var it := LowerBound(Key(id));
      if it == |nodes| || nodes[it].moduleId != id {
        r := null;
      } else {
        r := nodes[it];
      }
    }

    // -------------------------------------------------------------------------------
    // Links

    /** std::find followed by erase. */
    static method Erase<A(==)>(s: seq<A>, x: A) returns (r: seq<A>)
      requires x in s
      ensures r == Without(s, x)
    {
      var i := 0;
      while s[i] != x
        invariant 0 <= i < |s| && x !in s[..i]
        decreases |s| - i
      {
        i := i + 1;
      }
      WithoutAt(s, x, i);
      r := s[..i] + s[i + 1..];
    }

    method UnlinkFromSourceNode(link: Link, ghost ls: set<Link>)
      requires OutsOk(nodes, ls) && link in ls && link.srcNode in nodes
      modifies link.srcNode`outLinks
      ensures OutsOk(nodes, ls - {link})
      ensures forall n <- nodes :: n.outLinks == Without(old(n.outLinks), link)
    {
      assert OutOk(link.srcNode, ls);
      link.srcNode.outLinks := Erase(link.srcNode.outLinks, link);
      forall n <- nodes
        ensures n.outLinks == Without(old(n.outLinks), link) && OutOk(n, ls - {link})
      {
        assert old(OutOk(n, ls));
        WithoutFacts(old(n.outLinks), link);
      }
    }

    method UnlinkFromDestNode(link: Link, ghost ls: set<Link>)
      requires InsOk(nodes, ls) && link in ls && link.destNode in nodes
      modifies link.destNode`inLinks
      ensures InsOk(nodes, ls - {link})
      ensures forall n <- nodes :: n.inLinks == Without(old(n.inLinks), link)
    {
      assert InOk(link.destNode, ls);
      link.destNode.inLinks := Erase(link.destNode.inLinks, link);
      forall n <- nodes
        ensures n.inLinks == Without(old(n.inLinks), link) && InOk(n, ls - {link})
      {
        assert old(InOk(n, ls));
        WithoutFacts(old(n.inLinks), link);
      }
    }

    method DeleteLink(link: Link)
      requires Valid() && link in links
      modifies this`links, link.srcNode`outLinks, link.destNode`inLinks
      ensures Valid() && links == old(links) - {link}
      ensures forall n <- nodes :: n.outLinks == Without(old(n.outLinks), link)
      ensures forall n <- nodes :: n.inLinks == Without(old(n.inLinks), link)
    {
      hide NoDup, SortedById, OutsOk, InsOk;
      UnlinkFromSourceNode(link, links);
      UnlinkFromDestNode(link, links);
      links := links - {link};
    }
  
    /** The first half of AddLink: take the link out of the lists it may be in. */
    method Disconnect(link: Link)
      requires OutsOk(nodes, links) && InsOk(nodes, links) && EndsOk(nodes, links)
      requires link in links || (link.srcNode == null && link.destNode == null)
      modifies nodes`inLinks, nodes`outLinks
      ensures OutsOk(nodes, links - {link}) && InsOk(nodes, links - {link})
      ensures forall n <- nodes :: n.outLinks == Without(old(n.outLinks), link)
      ensures forall n <- nodes :: n.inLinks == Without(old(n.inLinks), link)
    {
      if link.srcNode != null {
        UnlinkFromSourceNode(link, links);
      }
      if link.destNode != null {
        UnlinkFromDestNode(link, links);
      }
      if link !in links {
        assert links - {link} == links;
        NotListed(link);
      }
    }

    lemma NotListed(link: Link)
      requires OutsOk(nodes, links) && InsOk(nodes, links) && link !in links
      ensures forall n <- nodes :: n.outLinks == Without(n.outLinks, link) && n.inLinks == Without(n.inLinks, link)
    {
      forall n <- nodes
        ensures n.outLinks == Without(n.outLinks, link) && n.inLinks == Without(n.inLinks, link)
      {
        assert OutOk(n, links) && InOk(n, links);
        WithoutFacts(n.outLinks, link);
        WithoutFacts(n.inLinks, link);
      }
    }

    method ListAtSource(link: Link, srcNode: Node, ghost ls: set<Link>)
      requires OutsOk(nodes, ls) && link !in ls && link.srcNode == srcNode && srcNode in nodes
      modifies srcNode`outLinks
      ensures OutsOk(nodes, ls + {link})
      ensures forall n <- nodes :: n.outLinks == old(n.outLinks) + if n == srcNode then [link] else []
    {
      assert OutOk(srcNode, ls);
      srcNode.outLinks := srcNode.outLinks + [link];
      forall n <- nodes ensures OutOk(n, ls + {link}) {
        assert old(OutOk(n, ls));
      }
    }

    method ListAtDest(link: Link, destNode: Node, ghost ls: set<Link>)
      requires InsOk(nodes, ls) && link !in ls && link.destNode == destNode && destNode in nodes
      modifies destNode`inLinks
      ensures InsOk(nodes, ls + {link})
      ensures forall n <- nodes :: n.inLinks == old(n.inLinks) + if n == destNode then [link] else []
    {
      assert InOk(destNode, ls);
      destNode.inLinks := destNode.inLinks + [link];
      forall n <- nodes ensures InOk(n, ls + {link}) {
        assert old(InOk(n, ls));
      }
    }

    /** Sets both ends; a gate id survives only if its end stays where it was. */
    method SetEnds(link: Link, srcNode: Node, destNode: Node, ghost ls: set<Link>)
      requires OutsOk(nodes, ls) && InsOk(nodes, ls) && EndsOk(nodes, ls) && link !in ls
      requires srcNode in nodes && destNode in nodes
      modifies link
      ensures OutsOk(nodes, ls) && InsOk(nodes, ls) && EndsOk(nodes, ls + {link})
      ensures link.srcNode == srcNode && link.destNode == destNode
      ensures link.srcGateId == if old(link.srcNode) == srcNode then old(link.srcGateId) else -1
      ensures link.destGateId == if old(link.destNode) == destNode then old(link.destGateId) else -1
      ensures link.weight == old(link.weight) && link.enabled == old(link.enabled)
    {
      hide NoDup, OutsOk, InsOk;
      if link.srcNode != srcNode {
        link.srcGateId := -1;
      }
      if link.destNode != destNode {
        link.destGateId := -1;
      }
      link.srcNode := srcNode;
      link.destNode := destNode;
    }

    lemma FewerEnds(ls: set<Link>, link: Link)
      requires EndsOk(nodes, ls)
      ensures EndsOk(nodes, ls - {link})
    {
    }

    method ListAtEnds(link: Link, srcNode: Node, destNode: Node, ghost ls: set<Link>)
      requires OutsOk(nodes, ls) && InsOk(nodes, ls) && link !in ls
      requires link.srcNode == srcNode && srcNode in nodes && link.destNode == destNode && destNode in nodes
      modifies nodes`inLinks, nodes`outLinks
      ensures OutsOk(nodes, ls + {link}) && InsOk(nodes, ls + {link})
      ensures forall n <- nodes :: n.outLinks == old(n.outLinks) + if n == srcNode then [link] else []
      ensures forall n <- nodes :: n.inLinks == old(n.inLinks) + if n == destNode then [link] else []
    {
      hide NoDup, OutsOk, InsOk;
      ListAtSource(link, srcNode, ls);
      ListAtDest(link, destNode, ls);
    }

    /** Takes the link out of the lists it is in and gives it its new ends. */
    method Redirect(link: Link, srcNode: Node, destNode: Node)
      requires OutsOk(nodes, links) && InsOk(nodes, links) && EndsOk(nodes, links)
      requires srcNode in nodes && destNode in nodes
      requires link in links || (link.srcNode == null && link.destNode == null)
      modifies link, nodes`inLinks, nodes`outLinks
      ensures OutsOk(nodes, links - {link}) && InsOk(nodes, links - {link}) && EndsOk(nodes, links + {link})
      ensures link.srcNode == srcNode && link.destNode == destNode
      ensures link.srcGateId == if old(link.srcNode) == srcNode then old(link.srcGateId) else -1
      ensures link.destGateId == if old(link.destNode) == destNode then old(link.destGateId) else -1
      ensures link.weight == old(link.weight) && link.enabled == old(link.enabled)
      ensures forall n <- nodes :: n.outLinks == Without(old(n.outLinks), link)
      ensures forall n <- nodes :: n.inLinks == Without(old(n.inLinks), link)
    {
      hide NoDup, OutsOk, InsOk, EndsOk;
      FewerEnds(links, link);
      Disconnect(link);
      SetEnds(link, srcNode, destNode, links - {link});
      assert links - {link} + {link} == links + {link};
    }

    /** Connects a link that is new, or moves one that is already in the graph. */
    method AddLink(link: Link, srcNode: Node, destNode: Node)
      requires Valid() && srcNode in nodes && destNode in nodes
      requires link in links || (link.srcNode == null && link.destNode == null)
      modifies this`links, link, nodes`inLinks, nodes`outLinks
      ensures Valid() && links == old(links) + {link}
      ensures link.srcNode == srcNode && link.destNode == destNode
      ensures link.srcGateId == if old(link.srcNode) == srcNode then old(link.srcGateId) else -1
      ensures link.destGateId == if old(link.destNode) == destNode then old(link.destGateId) else -1
      ensures link.weight == old(link.weight) && link.enabled == old(link.enabled)
      ensures forall n <- nodes :: n.outLinks == Without(old(n.outLinks), link) + if n == srcNode then [link] else []
      ensures forall n <- nodes :: n.inLinks == Without(old(n.inLinks), link) + if n == destNode then [link] else []
    {
      hide NoDup, SortedById, OutsOk, InsOk, EndsOk;
      ghost var rest := links - {link};
      Redirect(link, srcNode, destNode);
      ListAtEnds(link, srcNode, destNode, rest);
      links := links + {link};
      assert rest + {link} == links;
    }

    // -------------------------------------------------------------------------------
    // Deleting a node with all its links

    /** The lists in `base`, without the links in `gone`. */
    ghost predicate InListsKeep(base: map<Node, seq<Link>>, gone: set<Link>)
      reads this`nodes, nodes`inLinks
    {
      forall n <- nodes :: n in base && NoDup(base[n]) && n.inLinks == Keep(base[n], gone)
    }

    ghost predicate OutListsKeep(base: map<Node, seq<Link>>, gone: set<Link>)
      reads this`nodes, nodes`outLinks
    {
      forall n <- nodes :: n in base && NoDup(base[n]) && n.outLinks == Keep(base[n], gone)
    }

    lemma NothingGone()
      requires OutsOk(nodes, links) && InsOk(nodes, links)
      ensures InListsKeep(map n | n in nodes :: n.inLinks, {})
      ensures OutListsKeep(map n | n in nodes :: n.outLinks, {})
    {
      forall n <- nodes
        ensures NoDup(n.inLinks) && n.inLinks == Keep(n.inLinks, {})
        ensures NoDup(n.outLinks) && n.outLinks == Keep(n.outLinks, {})
      {
        assert InOk(n, links) && OutOk(n, links);
        KeepFacts(n.inLinks, {});
        KeepFacts(n.outLinks, {});
      }
    }

    method DropFromDest(link: Link, ghost ls: set<Link>, ghost base: map<Node, seq<Link>>, ghost gone: set<Link>)
      requires InsOk(nodes, ls - gone) && link in ls - gone && link.destNode in nodes
      requires InListsKeep(base, gone)
      modifies link.destNode`inLinks
      ensures InsOk(nodes, ls - (gone + {link})) && InListsKeep(base, gone + {link})
    {
      UnlinkFromDestNode(link, ls - gone);
      assert ls - gone - {link} == ls - (gone + {link});
      forall n <- nodes ensures n.inLinks == Keep(base[n], gone + {link}) {
        KeepOneLess(base[n], gone, link);
      }
    }

    method DropFromSource(link: Link, ghost ls: set<Link>, ghost base: map<Node, seq<Link>>, ghost gone: set<Link>)
      requires OutsOk(nodes, ls - gone) && link in ls - gone && link.srcNode in nodes
      requires OutListsKeep(base, gone)
      modifies link.srcNode`outLinks
      ensures OutsOk(nodes, ls - (gone + {link})) && OutListsKeep(base, gone + {link})
    {
      UnlinkFromSourceNode(link, ls - gone);
      assert ls - gone - {link} == ls - (gone + {link});
      forall n <- nodes ensures n.outLinks == Keep(base[n], gone + {link}) {
        KeepOneLess(base[n], gone, link);
      }
    }

    lemma OutsWithoutNode(node: Node, ls: set<Link>, gone: set<Link>)
      requires gone == set l | l in ls && l.srcNode == node
      requires node.outLinks == [] && forall n <- nodes :: n != node ==> OutOk(n, ls)
      ensures OutsOk(nodes, ls - gone)
    {
    }

    lemma InsWithoutNode(node: Node, ls: set<Link>, gone: set<Link>)
      requires gone == set l | l in ls && l.destNode == node
      requires node.inLinks == [] && forall n <- nodes :: n != node ==> InOk(n, ls)
      ensures InsOk(nodes, ls - gone)
    {
    }

    /** The first loop of DeleteNode. */
    method RemoveOutgoing(node: Node, ghost gone: set<Link>, ghost base: map<Node, seq<Link>>)
      requires OutsOk(nodes, links) && InsOk(nodes, links) && EndsOk(nodes, links) && node in nodes
      requires gone == set l | l in links && l.srcNode == node
      requires InListsKeep(base, {})
      modifies this`links, node`outLinks, nodes`inLinks
      ensures links == old(links) - gone && node.outLinks == []
      ensures OutsOk(nodes, links) && InsOk(nodes, links)
      ensures InListsKeep(base, gone)
    {
      hide InsOk, InListsKeep, Keep;
      ghost var done: set<Link> := {};
      assert OutOk(node, links);
      assert links - {} == links;
      var i := 0;
      while i < |node.outLinks|
        invariant 0 <= i <= |node.outLinks|
        invariant node.outLinks == old(node.outLinks) && links == old(links)
        invariant done == set l | l in node.outLinks[..i]
        invariant InsOk(nodes, links - done) && InListsKeep(base, done)
      {
        hide OutsOk;
        var link := node.outLinks[i];
        assert link !in node.outLinks[..i];
        DropFromDest(link, links, base, done);
        assert node.outLinks[..i + 1] == node.outLinks[..i] + [link];
        done := done + {link};
        i := i + 1;
      }
      assert done == gone;
      node.outLinks := [];
      assert forall n <- nodes :: n != node ==> old(OutOk(n, links)) && OutOk(n, links);
      OutsWithoutNode(node, links, gone);
      links := links - gone;
    }

    /** The second loop of DeleteNode, when no outgoing links are left. */
    method RemoveIncoming(node: Node, ghost gone: set<Link>, ghost base: map<Node, seq<Link>>)
      requires OutsOk(nodes, links) && InsOk(nodes, links) && EndsOk(nodes, links) && node in nodes
      requires gone == set l | l in links && l.destNode == node
      requires OutListsKeep(base, {}) && forall l <- links :: l.srcNode != node
      modifies this`links, node`inLinks, nodes`outLinks
      ensures links == old(links) - gone && node.inLinks == []
      ensures OutsOk(nodes, links) && InsOk(nodes, links)
      ensures OutListsKeep(base, gone)
    {
      hide OutsOk, OutListsKeep, Keep;
      ghost var done: set<Link> := {};
      assert InOk(node, links);
      assert links - {} == links;
      var i := 0;
      while i < |node.inLinks|
        invariant 0 <= i <= |node.inLinks|
        invariant node.inLinks == old(node.inLinks) && links == old(links)
        invariant done == set l | l in node.inLinks[..i]
        invariant OutsOk(nodes, links - done) && OutListsKeep(base, done)
      {
        hide InsOk;
        var link := node.inLinks[i];
        assert link !in node.inLinks[..i];
        DropFromSource(link, links, base, done);
        assert node.inLinks[..i + 1] == node.inLinks[..i] + [link];
        done := done + {link};
        i := i + 1;
      }
      assert done == gone;
      node.inLinks := [];
      assert forall n <- nodes :: n != node ==> old(InOk(n, links)) && InOk(n, links);
      InsWithoutNode(node, links, gone);
      links := links - gone;
    }

    lemma NodesWithout(ns: seq<Node>, node: Node, ls: set<Link>)
      requires NoDup(ns) && SortedById(ns) && EndsOk(ns, ls) && OutsOk(ns, ls) && InsOk(ns, ls)
      requires node in ns && forall l <- ls :: l.srcNode != node && l.destNode != node
      ensures var r := Without(ns, node);
              NoDup(r) && SortedById(r) && EndsOk(r, ls) && OutsOk(r, ls) && InsOk(r, ls)
    {
      WithoutFacts(ns, node);
      var i :| 0 <= i < |ns| && ns[i] == node;
      WithoutAt(ns, node, i);
    }

    lemma OnlyOwnLinksMatter(n: Node, node: Node, ls: set<Link>, out: set<Link>, inn: set<Link>)
      requires OutOk(n, ls) && InOk(n, ls) && n != node
      requires forall l <- out :: l.srcNode == node
      requires forall l <- inn :: l.destNode == node
      ensures Keep(n.outLinks, inn) == Keep(n.outLinks, out + inn)
      ensures Keep(n.inLinks, out) == Keep(n.inLinks, out + inn)
    {
      KeepSame(n.outLinks, inn, out + inn);
      KeepSame(n.inLinks, out, out + inn);
    }

    method RemoveLinksOf(node: Node, ghost out: set<Link>, ghost inn: set<Link>)
      requires OutsOk(nodes, links) && InsOk(nodes, links) && EndsOk(nodes, links) && node in nodes
      requires out == set l | l in links && l.srcNode == node
      requires inn == set l | l in links - out && l.destNode == node
      modifies this`links, nodes`inLinks, nodes`outLinks
      ensures links == old(links) - out - inn && OutsOk(nodes, links) && InsOk(nodes, links)
      ensures node.outLinks == [] == node.inLinks
      ensures forall n <- nodes | n != node ::
                n.outLinks == Keep(old(n.outLinks), inn) && n.inLinks == Keep(old(n.inLinks), out)
    {
      hide NoDup, OutsOk, InsOk, Keep;
      ghost var ins := map n | n in nodes :: n.inLinks;
      NothingGone();
      RemoveOutgoing(node, out, ins);
      ghost var outs := map n | n in nodes :: n.outLinks;
      NothingGone();
      KeepFacts(node.outLinks, inn);
      RemoveIncoming(node, inn, outs);
    }

    /** Deletes a node together with all its links. */
    method DeleteNode(node: Node)
      requires Valid() && node in nodes
      modifies this`nodes, this`links, nodes`inLinks, nodes`outLinks
      ensures Valid() && nodes == Without(old(nodes), node)
      ensures links == old(links) - set l | l in old(links) && (old(l.srcNode) == node || old(l.destNode) == node)
      ensures forall n <- old(nodes) | n != node ::
                n.outLinks == Keep(old(n.outLinks), old(links) - links) &&
                n.inLinks == Keep(old(n.inLinks), old(links) - links)
    {
      hide NoDup, SortedById, OutsOk, InsOk, Keep;
      ghost var out := set l | l in links && l.srcNode == node;
      ghost var inn := set l | l in links - out && l.destNode == node;
      AllOwnLinksMatter(node, out, inn);
      RemoveLinksOf(node, out, inn);
      assert old(links) - links == out + inn;
      var rest := Erase(nodes, node);
      NodesWithout(nodes, node, links);
      nodes := rest;
    }

    lemma AllOwnLinksMatter(node: Node, out: set<Link>, inn: set<Link>)
      requires OutsOk(nodes, links) && InsOk(nodes, links)
      requires forall l <- out :: l.srcNode == node
      requires forall l <- inn :: l.destNode == node
      ensures forall n <- nodes | n != node ::
                Keep(n.outLinks, inn) == Keep(n.outLinks, out + inn) && Keep(n.inLinks, out) == Keep(n.inLinks, out + inn)
    {
      forall n <- nodes | n != node
        ensures Keep(n.outLinks, inn) == Keep(n.outLinks, out + inn) && Keep(n.inLinks, out) == Keep(n.inLinks, out + inn)
      {
        OnlyOwnLinksMatter(n, node, links, out, inn);
      }
    }
  }
}
