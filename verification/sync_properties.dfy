/** Properties of the per-tick synchronisation: the shadow maps mirror the
    current lists exactly, shadows are reused across ticks, ids are stamped
    once and stay put, and a tick with nothing new changes nothing. */
module SyncProperties {

  import opened Options
  import opened ShadowSync

  /** The ids carried by a list of nodes. */
  function NodeIdSet<P>(nodes: seq<Node<P>>): set<int> {
    set i | 0 <= i < |nodes| && nodes[i].id.Some? :: nodes[i].id.value
  }

  /** The linkIDs carried by a list of links. */
  function LinkIdSet(links: seq<Link>): set<int> {
    set i | 0 <= i < |links| && links[i].linkID.Some? :: links[i].linkID.value
  }

  /** No two nodes of the list carry the same id. */
  predicate DistinctIds<P>(nodes: seq<Node<P>>) {
    forall i, j :: 0 <= i < j < |nodes| ==> nodes[i].id != nodes[j].id
  }

  // ---------------------------------------------------------------------
  // The node half

  /** The rebuilt shadow map has exactly the ids of the current nodes as
      keys: no entry is missing and none survives for a vanished node. */
  lemma {:induction false} SyncNodesKeys<P>(prior: map<int, Shadow<P>>, nodes: seq<Node<P>>, next: int)
    ensures var r := SyncNodes(prior, nodes, next);
      r.shadows.built.Keys == NodeIdSet(r.nodes)
  {
    var r := SyncNodes(prior, nodes, next);
    var st := Stamp(NodeIds(nodes), next);
    forall k | k in r.shadows.built
      ensures k in NodeIdSet(r.nodes)
    {
      RebuildOnlyCurrentKeys(prior, st.ids, NewShadows(st.ids, nodes), k);
      var j :| 0 <= j < |st.ids| && st.ids[j] == k;
      assert r.nodes[j].id == Some(k);
    }
  }

  /** A shadow that already existed for a current id is kept as it was. */
  lemma {:induction false} SyncNodesReuses<P>(prior: map<int, Shadow<P>>, nodes: seq<Node<P>>, next: int)
    ensures var r := SyncNodes(prior, nodes, next);
      forall k :: k in r.shadows.built && k in prior ==> r.shadows.built[k] == prior[k]
  {
    var r := SyncNodes(prior, nodes, next);
    var st := Stamp(NodeIds(nodes), next);
    forall k | k in r.shadows.built && k in prior
      ensures r.shadows.built[k] == prior[k]
    {
      RebuildReuses(prior, st.ids, NewShadows(st.ids, nodes), k);
    }
  }

  /** A node whose id had no shadow gets a new one whose four planar fields
      all hold the node's `z` (when several such nodes share the id, the
      last one's). */
  lemma {:induction false} SyncNodesCreates<P>(prior: map<int, Shadow<P>>, nodes: seq<Node<P>>, next: int, i: int)
    requires 0 <= i < |nodes|
    requires var r := SyncNodes(prior, nodes, next);
      && r.nodes[i].id.value !in prior
      && forall j :: i < j < |nodes| ==> r.nodes[j].id != r.nodes[i].id
    ensures var r := SyncNodes(prior, nodes, next);
      r.shadows.built[r.nodes[i].id.value] == NewShadow(r.nodes[i].id.value, nodes[i].z)
  {
    var r := SyncNodes(prior, nodes, next);
    var st := Stamp(NodeIds(nodes), next);
    assert forall j :: 0 <= j < |nodes| ==> r.nodes[j].id == Some(st.ids[j]);
    RebuildMakesLast(prior, st.ids, NewShadows(st.ids, nodes), i);
  }

  /** With distinct ids, every node's `z` is its shadow's `x` once the
      node half is done. */
  lemma {:induction false} SyncNodesAgree<P>(prior: map<int, Shadow<P>>, nodes: seq<Node<P>>, next: int)
    requires DistinctIds(SyncNodes(prior, nodes, next).nodes)
    ensures var r := SyncNodes(prior, nodes, next);
      forall i :: 0 <= i < |nodes| ==> r.nodes[i].z == r.shadows.built[r.nodes[i].id.value].x
  {
    var r := SyncNodes(prior, nodes, next);
    forall i | 0 <= i < |nodes|
      ensures r.nodes[i].z == r.shadows.built[r.nodes[i].id.value].x
    {
      var k := r.nodes[i].id.value;
      if k in prior {
        SyncNodesReuses(prior, nodes, next);
      } else {
        SyncNodesCreates(prior, nodes, next, i);
      }
    }
  }

  /** Every shadow stays filed under its own id. */
  lemma {:induction false} SyncNodesFilesById<P>(prior: map<int, Shadow<P>>, nodes: seq<Node<P>>, next: int)
    requires forall k :: k in prior ==> prior[k].id == k
    ensures var r := SyncNodes(prior, nodes, next);
      forall k :: k in r.shadows.built ==> r.shadows.built[k].id == k
  {
    var r := SyncNodes(prior, nodes, next);
    var st := Stamp(NodeIds(nodes), next);
    forall k | k in r.shadows.built
      ensures r.shadows.built[k].id == k
    {
      if k in prior {
        SyncNodesReuses(prior, nodes, next);
      } else {
        RebuildOnlyCurrentKeys(prior, st.ids, NewShadows(st.ids, nodes), k);
        var i := LastIndex(st.ids, k);
        RebuildMakesLast(prior, st.ids, NewShadows(st.ids, nodes), i);
      }
    }
  }

  // ---------------------------------------------------------------------
  // The link half

  lemma {:induction false} SyncLinksKeys<P>(prior: map<int, ShadowLink<P>>, shadows: map<int, Shadow<P>>, nodes: seq<Node<P>>,
                         links: seq<Link>, next: int)
    ensures var r := SyncLinks(prior, shadows, nodes, links, next);
      r.shadows.built.Keys == LinkIdSet(r.links)
  {
    var r := SyncLinks(prior, shadows, nodes, links, next);
    var st := Stamp(LinkIds(links), next);
    forall k | k in r.shadows.built
      ensures k in LinkIdSet(r.links)
    {
      RebuildOnlyCurrentKeys(prior, st.ids, NewShadowLinks(shadows, nodes, links), k);
      var j :| 0 <= j < |st.ids| && st.ids[j] == k;
      assert r.links[j].linkID == Some(k);
    }
  }

  lemma {:induction false} SyncLinksReuses<P>(prior: map<int, ShadowLink<P>>, shadows: map<int, Shadow<P>>, nodes: seq<Node<P>>,
                           links: seq<Link>, next: int)
    ensures var r := SyncLinks(prior, shadows, nodes, links, next);
      forall k :: k in r.shadows.built && k in prior ==> r.shadows.built[k] == prior[k]
  {
    var r := SyncLinks(prior, shadows, nodes, links, next);
    var st := Stamp(LinkIds(links), next);
    forall k | k in r.shadows.built && k in prior
      ensures r.shadows.built[k] == prior[k]
    {
      RebuildReuses(prior, st.ids, NewShadowLinks(shadows, nodes, links), k);
    }
  }

  lemma {:induction false} SyncLinksCreates<P>(prior: map<int, ShadowLink<P>>, shadows: map<int, Shadow<P>>, nodes: seq<Node<P>>,
                            links: seq<Link>, next: int, i: int)
    requires 0 <= i < |links|
    requires var r := SyncLinks(prior, shadows, nodes, links, next);
      && r.links[i].linkID.value !in prior
      && forall j :: i < j < |links| ==> r.links[j].linkID != r.links[i].linkID
    ensures var r := SyncLinks(prior, shadows, nodes, links, next);
      r.shadows.built[r.links[i].linkID.value]
        == ShadowLink(Endpoint(shadows, nodes, links[i].source), Endpoint(shadows, nodes, links[i].target))
  {
    var r := SyncLinks(prior, shadows, nodes, links, next);
    var st := Stamp(LinkIds(links), next);
    assert forall j :: 0 <= j < |links| ==> r.links[j].linkID == Some(st.ids[j]);
    RebuildMakesLast(prior, st.ids, NewShadowLinks(shadows, nodes, links), i);
  }

  // ---------------------------------------------------------------------
  // Counters

  /** Counting falsy ids up to a later position that lies past one more
      falsy id yields a strictly larger count. */
  lemma {:induction false} DrawnGrows(ids: seq<Option<int>>, i: int, j: int)
    requires 0 <= i < j <= |ids|
    requires !Truthy(ids[i])
    ensures Drawn(ids, i) < Drawn(ids, j)
    decreases j
  {
    if j - 1 > i {
      DrawnGrows(ids, i, j - 1);
    }
  }

  /** A list whose ids are all truthy draws nothing from its counter. */
  lemma {:induction false} DrawnNoneWhenStamped(ids: seq<Option<int>>, n: int)
    requires 0 <= n <= |ids|
    requires forall i :: 0 <= i < |ids| ==> Truthy(ids[i])
    ensures Drawn(ids, n) == 0
  {
    if n > 0 {
      DrawnNoneWhenStamped(ids, n - 1);
    }
  }

  /** A node without a truthy id takes the counter's value at its turn:
      the value before the pass plus the number of earlier nodes that also
      lacked one. */
  lemma {:induction false} SyncNodesStampsFromCounter<P>(prior: map<int, Shadow<P>>, nodes: seq<Node<P>>, next: int)
    ensures var r := SyncNodes(prior, nodes, next);
      forall i {:trigger r.nodes[i]} :: 0 <= i < |nodes| && !Truthy(nodes[i].id) ==>
        r.nodes[i].id.value == next + Drawn(NodeIds(nodes), i)
  {
    var r := SyncNodes(prior, nodes, next);
    forall i | 0 <= i < |nodes| && !Truthy(nodes[i].id)
      ensures r.nodes[i].id.value == next + Drawn(NodeIds(nodes), i)
    {
      SyncNodesStampAt(prior, nodes, next, i);
    }
  }

  lemma {:induction false} SyncNodesStampAt<P>(prior: map<int, Shadow<P>>, nodes: seq<Node<P>>, next: int, i: int)
    requires 0 <= i < |nodes| && !Truthy(nodes[i].id)
    ensures SyncNodes(prior, nodes, next).nodes[i].id.value == next + Drawn(NodeIds(nodes), i)
  {
    var ids := NodeIds(nodes);
    var st := Stamp(ids, next);
    assert ids[i] == nodes[i].id;
    assert st.ids[i] == next + Drawn(ids, i);
  }

  /** The same for links and the link counter. */
  lemma {:induction false} SyncLinksStampsFromCounter<P>(prior: map<int, ShadowLink<P>>, shadows: map<int, Shadow<P>>, nodes: seq<Node<P>>,
                                      links: seq<Link>, next: int)
    ensures var r := SyncLinks(prior, shadows, nodes, links, next);
      forall i {:trigger r.links[i]} :: 0 <= i < |links| && !Truthy(links[i].linkID) ==>
        r.links[i].linkID.value == next + Drawn(LinkIds(links), i)
  {
    var r := SyncLinks(prior, shadows, nodes, links, next);
    forall i | 0 <= i < |links| && !Truthy(links[i].linkID)
      ensures r.links[i].linkID.value == next + Drawn(LinkIds(links), i)
    {
      SyncLinksStampAt(prior, shadows, nodes, links, next, i);
    }
  }

  lemma {:induction false} SyncLinksStampAt<P>(prior: map<int, ShadowLink<P>>, shadows: map<int, Shadow<P>>, nodes: seq<Node<P>>,
                            links: seq<Link>, next: int, i: int)
    requires 0 <= i < |links| && !Truthy(links[i].linkID)
    ensures SyncLinks(prior, shadows, nodes, links, next).links[i].linkID.value == next + Drawn(LinkIds(links), i)
  {
    var ids := LinkIds(links);
    var st := Stamp(ids, next);
    assert ids[i] == links[i].linkID;
    assert st.ids[i] == next + Drawn(ids, i);
  }

  /** The node counter hands out ids in list order: they are distinct,
      strictly increasing, at least the counter's value before the pass and
      below its value after it. */
  lemma {:induction false} SyncNodesStampsInOrder<P>(prior: map<int, Shadow<P>>, nodes: seq<Node<P>>, next: int)
    ensures var r := SyncNodes(prior, nodes, next);
      && (forall i {:trigger r.nodes[i]} :: 0 <= i < |nodes| && !Truthy(nodes[i].id) ==> next <= r.nodes[i].id.value < r.next)
      && (forall i, j {:trigger r.nodes[i], r.nodes[j]} :: 0 <= i < j < |nodes| && !Truthy(nodes[i].id) && !Truthy(nodes[j].id) ==>
            r.nodes[i].id.value < r.nodes[j].id.value)
  {
    var r := SyncNodes(prior, nodes, next);
    var ids := NodeIds(nodes);
    forall i | 0 <= i < |nodes| && !Truthy(nodes[i].id)
      ensures next <= r.nodes[i].id.value < r.next
    {
      DrawnGrows(ids, i, |ids|);
    }
    forall i, j | 0 <= i < j < |nodes| && !Truthy(nodes[i].id) && !Truthy(nodes[j].id)
      ensures r.nodes[i].id.value < r.nodes[j].id.value
    {
      DrawnGrows(ids, i, j);
    }
  }

  /** The same for links and the link counter. */
  lemma {:induction false} SyncLinksStampsInOrder<P>(prior: map<int, ShadowLink<P>>, shadows: map<int, Shadow<P>>, nodes: seq<Node<P>>,
                                  links: seq<Link>, next: int)
    ensures var r := SyncLinks(prior, shadows, nodes, links, next);
      && (forall i {:trigger r.links[i]} :: 0 <= i < |links| && !Truthy(links[i].linkID) ==> next <= r.links[i].linkID.value < r.next)
      && (forall i, j {:trigger r.links[i], r.links[j]} :: 0 <= i < j < |links| && !Truthy(links[i].linkID) && !Truthy(links[j].linkID) ==>
            r.links[i].linkID.value < r.links[j].linkID.value)
  {
    var r := SyncLinks(prior, shadows, nodes, links, next);
    var ids := LinkIds(links);
    forall i | 0 <= i < |links| && !Truthy(links[i].linkID)
      ensures next <= r.links[i].linkID.value < r.next
    {
      DrawnGrows(ids, i, |ids|);
    }
    forall i, j | 0 <= i < j < |links| && !Truthy(links[i].linkID) && !Truthy(links[j].linkID)
      ensures r.links[i].linkID.value < r.links[j].linkID.value
    {
      DrawnGrows(ids, i, j);
    }
  }

  // ---------------------------------------------------------------------
  // Whole ticks

  /** A tick is its node half followed by its link half, the link half
      reading the node map and node list the node half just produced. */
  lemma {:induction false} TickParts<P>(s: Sync<P>, nodes: seq<Node<P>>, links: seq<Link>)
    ensures var r := Tick(s, nodes, links);
      var ns := SyncNodes(s.zNodes, nodes, s.nodeID);
      var ls := SyncLinks(s.zLinks, ns.shadows.built, ns.nodes, links, s.linkID);
      && r.nodes == ns.nodes && r.state.nodeID == ns.next && r.state.zNodes == ns.shadows.built
      && r.links == ls.links && r.state.linkID == ls.next && r.state.zLinks == ls.shadows.built
      && r.zNodeOrder == ns.shadows.order && r.zLinkOrder == ls.shadows.order
  {
  }

  /** Within one tick each counter hands out ids in list order: distinct,
      strictly increasing, at least its value before the tick and below its
      value after it. Ids already set are kept, and each counter moves by
      exactly the number of ids it handed out. */
  lemma {:induction false} TickStampsIds<P>(s: Sync<P>, nodes: seq<Node<P>>, links: seq<Link>)
    ensures var r := Tick(s, nodes, links);
      && r.state.nodeID == s.nodeID + Drawn(NodeIds(nodes), |nodes|)
      && r.state.linkID == s.linkID + Drawn(LinkIds(links), |links|)
      && (forall i {:trigger r.nodes[i]} :: 0 <= i < |nodes| && Truthy(nodes[i].id) ==> r.nodes[i].id == nodes[i].id)
      && (forall i {:trigger r.links[i]} :: 0 <= i < |links| && Truthy(links[i].linkID) ==> r.links[i].linkID == links[i].linkID)
      && (forall i {:trigger r.nodes[i]} :: 0 <= i < |nodes| && !Truthy(nodes[i].id) ==> s.nodeID <= r.nodes[i].id.value < r.state.nodeID)
      && (forall i {:trigger r.links[i]} :: 0 <= i < |links| && !Truthy(links[i].linkID) ==> s.linkID <= r.links[i].linkID.value < r.state.linkID)
      && (forall i, j {:trigger r.nodes[i], r.nodes[j]} :: 0 <= i < j < |nodes| && !Truthy(nodes[i].id) && !Truthy(nodes[j].id) ==>
            r.nodes[i].id.value < r.nodes[j].id.value)
      && (forall i, j {:trigger r.links[i], r.links[j]} :: 0 <= i < j < |links| && !Truthy(links[i].linkID) && !Truthy(links[j].linkID) ==>
            r.links[i].linkID.value < r.links[j].linkID.value)
  {
    var ns := SyncNodes(s.zNodes, nodes, s.nodeID);
    TickParts(s, nodes, links);
    SyncNodesStampsInOrder(s.zNodes, nodes, s.nodeID);
    SyncLinksStampsInOrder(s.zLinks, ns.shadows.built, ns.nodes, links, s.linkID);
  }

  /** A node without a truthy id takes the node counter's value at its
      turn: the value before the tick plus the number of nodes before it
      that also lacked one. The same holds for links and their counter. */
  lemma {:induction false} TickStampsFromCounter<P>(s: Sync<P>, nodes: seq<Node<P>>, links: seq<Link>)
    ensures var r := Tick(s, nodes, links);
      && (forall i {:trigger r.nodes[i]} :: 0 <= i < |nodes| && !Truthy(nodes[i].id) ==>
            r.nodes[i].id.value == s.nodeID + Drawn(NodeIds(nodes), i))
      && (forall i {:trigger r.links[i]} :: 0 <= i < |links| && !Truthy(links[i].linkID) ==>
            r.links[i].linkID.value == s.linkID + Drawn(LinkIds(links), i))
  {
    var ns := SyncNodes(s.zNodes, nodes, s.nodeID);
    TickParts(s, nodes, links);
    SyncNodesStampsFromCounter(s.zNodes, nodes, s.nodeID);
    SyncLinksStampsFromCounter(s.zLinks, ns.shadows.built, ns.nodes, links, s.linkID);
  }

  /** Ids handed out by a later tick are larger than every id the counter
      handed out in an earlier one. */
  lemma {:induction false} LaterTickIdsLarger<P>(s: Sync<P>, nodes: seq<Node<P>>, links: seq<Link>,
                              nodes2: seq<Node<P>>, links2: seq<Link>)
    ensures var r := Tick(s, nodes, links);
      var r2 := Tick(r.state, nodes2, links2);
      && (forall i, j {:trigger r.nodes[i], r2.nodes[j]} :: 0 <= i < |nodes| && 0 <= j < |nodes2| && !Truthy(nodes[i].id) && !Truthy(nodes2[j].id) ==>
            r.nodes[i].id.value < r2.nodes[j].id.value)
      && (forall i, j {:trigger r.links[i], r2.links[j]} :: 0 <= i < |links| && 0 <= j < |links2| && !Truthy(links[i].linkID) && !Truthy(links2[j].linkID) ==>
            r.links[i].linkID.value < r2.links[j].linkID.value)
  {
    var r := Tick(s, nodes, links);
    TickStampsIds(s, nodes, links);
    TickStampsIds(r.state, nodes2, links2);
  }

  /** After a tick the shadow maps are exactly the image of the current
      lists: their keys are the current ids and linkIDs, nothing else. */
  lemma {:induction false} TickMirrorsLists<P>(s: Sync<P>, nodes: seq<Node<P>>, links: seq<Link>)
    ensures var r := Tick(s, nodes, links);
      && r.state.zNodes.Keys == NodeIdSet(r.nodes)
      && r.state.zLinks.Keys == LinkIdSet(r.links)
  {
    var ns := SyncNodes(s.zNodes, nodes, s.nodeID);
    SyncNodesKeys(s.zNodes, nodes, s.nodeID);
    SyncLinksKeys(s.zLinks, ns.shadows.built, ns.nodes, links, s.linkID);
  }

  /** Shadows and shadow links that already existed for a current id or
      linkID are reused unchanged. */
  lemma {:induction false} TickReuses<P>(s: Sync<P>, nodes: seq<Node<P>>, links: seq<Link>)
    ensures var r := Tick(s, nodes, links);
      && (forall k :: k in r.state.zNodes && k in s.zNodes ==> r.state.zNodes[k] == s.zNodes[k])
      && (forall k :: k in r.state.zLinks && k in s.zLinks ==> r.state.zLinks[k] == s.zLinks[k])
  {
    var ns := SyncNodes(s.zNodes, nodes, s.nodeID);
    TickParts(s, nodes, links);
    SyncNodesReuses(s.zNodes, nodes, s.nodeID);
    SyncLinksReuses(s.zLinks, ns.shadows.built, ns.nodes, links, s.linkID);
  }

  /** A new shadow link points at the entries of the freshly rebuilt
      shadow map for its endpoints' ids; an endpoint outside the node list
      has no shadow. */
  lemma {:induction false} TickLinksFreshShadows<P>(s: Sync<P>, nodes: seq<Node<P>>, links: seq<Link>, i: int)
    requires 0 <= i < |links|
    requires var r := Tick(s, nodes, links);
      && r.links[i].linkID.value !in s.zLinks
      && forall j :: i < j < |links| ==> r.links[j].linkID != r.links[i].linkID
    ensures var r := Tick(s, nodes, links);
      var sl := r.state.zLinks[r.links[i].linkID.value];
      var src := links[i].source;
      var dst := links[i].target;
      && sl.source == Endpoint(r.state.zNodes, r.nodes, src)
      && sl.target == Endpoint(r.state.zNodes, r.nodes, dst)
      && (sl.source.Some? <==> 0 <= src < |nodes|)
      && (sl.target.Some? <==> 0 <= dst < |nodes|)
  {
    var r := Tick(s, nodes, links);
    var ns := SyncNodes(s.zNodes, nodes, s.nodeID);
    TickParts(s, nodes, links);
    SyncLinksCreates(s.zLinks, ns.shadows.built, ns.nodes, links, s.linkID, i);
    var sl := r.state.zLinks[r.links[i].linkID.value];
    assert sl == ShadowLink(Endpoint(ns.shadows.built, ns.nodes, links[i].source),
                            Endpoint(ns.shadows.built, ns.nodes, links[i].target));
  }

  /** A node whose id had no shadow gets a new one made from its `z`, with
      that id. */
  lemma {:induction false} TickCreatesShadow<P>(s: Sync<P>, nodes: seq<Node<P>>, links: seq<Link>, i: int)
    requires 0 <= i < |nodes|
    requires var r := Tick(s, nodes, links);
      && r.nodes[i].id.value !in s.zNodes
      && forall j :: i < j < |nodes| ==> r.nodes[j].id != r.nodes[i].id
    ensures var r := Tick(s, nodes, links);
      var sh := r.state.zNodes[r.nodes[i].id.value];
      && sh.id == r.nodes[i].id.value
      && sh.x == nodes[i].z && sh.y == nodes[i].z && sh.px == nodes[i].z && sh.py == nodes[i].z
  {
    SyncNodesCreates(s.zNodes, nodes, s.nodeID, i);
  }

  /** The write-back of a tick: a node with an existing shadow takes that
      shadow's `x` as its `z`; a node seen for the first time keeps its `z`.
      When the ids are distinct, every node's `z` equals its shadow's `x`
      afterwards. */
  lemma {:induction false} TickWritesBackZ<P>(s: Sync<P>, nodes: seq<Node<P>>, links: seq<Link>)
    ensures var r := Tick(s, nodes, links);
      && (forall i :: 0 <= i < |nodes| && r.nodes[i].id.value in s.zNodes ==>
            r.nodes[i].z == s.zNodes[r.nodes[i].id.value].x)
      && (forall i {:trigger r.nodes[i]} :: 0 <= i < |nodes| && r.nodes[i].id.value !in s.zNodes ==> r.nodes[i].z == nodes[i].z)
      && (DistinctIds(r.nodes) ==>
            forall i :: 0 <= i < |nodes| ==> r.nodes[i].z == r.state.zNodes[r.nodes[i].id.value].x)
  {
    var r := Tick(s, nodes, links);
    if DistinctIds(r.nodes) {
      SyncNodesAgree(s.zNodes, nodes, s.nodeID);
    }
  }

  /** Neither counter goes down over a tick. */
  lemma {:induction false} TickCountersGrow<P>(s: Sync<P>, nodes: seq<Node<P>>, links: seq<Link>)
    ensures var r := Tick(s, nodes, links);
      r.state.nodeID >= s.nodeID && r.state.linkID >= s.linkID
  {
    TickStampsIds(s, nodes, links);
  }

  /** A tick keeps the state well formed: counters stay positive and never
      decrease, and every shadow is filed under its own id. */
  lemma {:induction false} TickPreservesWf<P>(s: Sync<P>, nodes: seq<Node<P>>, links: seq<Link>)
    requires Wf(s)
    ensures var r := Tick(s, nodes, links);
      && Wf(r.state)
      && r.state.nodeID >= s.nodeID
      && r.state.linkID >= s.linkID
  {
    SyncNodesFilesById(s.zNodes, nodes, s.nodeID);
  }

  /** On a well-formed state every id and linkID a tick leaves is truthy,
      so no later tick re-stamps it. */
  lemma {:induction false} TickLeavesTruthyIds<P>(s: Sync<P>, nodes: seq<Node<P>>, links: seq<Link>)
    requires Wf(s)
    ensures var r := Tick(s, nodes, links);
      && (forall i :: 0 <= i < |nodes| ==> Truthy(r.nodes[i].id))
      && (forall i :: 0 <= i < |links| ==> Truthy(r.links[i].linkID))
  {
    TickStampsIds(s, nodes, links);
  }

  /** A node pass over nodes that all carry ids with a shadow keeps every
      id and the counter, and sets each `z` to its shadow's `x`. */
  lemma {:induction false} SyncNodesKeepsList<P>(prior: map<int, Shadow<P>>, nodes: seq<Node<P>>, next: int)
    requires forall i :: 0 <= i < |nodes| ==> Truthy(nodes[i].id)
    requires forall i :: 0 <= i < |nodes| ==> nodes[i].id.Some? && nodes[i].id.value in prior
    ensures var r := SyncNodes(prior, nodes, next);
      && r.next == next
      && forall i :: 0 <= i < |nodes| ==> r.nodes[i] == nodes[i].(z := prior[nodes[i].id.value].x)
  {
    var r := SyncNodes(prior, nodes, next);
    assert r.next == next by {
      DrawnNoneWhenStamped(NodeIds(nodes), |nodes|);
    }
    forall i | 0 <= i < |nodes|
      ensures r.nodes[i] == nodes[i].(z := prior[nodes[i].id.value].x)
    {
      SyncNodesKeepsNode(prior, nodes, next, i);
    }
  }

  lemma {:induction false} SyncNodesKeepsNode<P>(prior: map<int, Shadow<P>>, nodes: seq<Node<P>>, next: int, i: int)
    requires 0 <= i < |nodes| && Truthy(nodes[i].id)
    requires nodes[i].id.value in prior
    ensures SyncNodes(prior, nodes, next).nodes[i] == nodes[i].(z := prior[nodes[i].id.value].x)
  {
    var r := SyncNodes(prior, nodes, next);
    var ids := NodeIds(nodes);
    var st := Stamp(ids, next);
    assert ids[i] == nodes[i].id;
    assert st.ids[i] == nodes[i].id.value;
    assert r.nodes[i].id == nodes[i].id;
  }

  /** Two maps with the same keys that agree on every key are equal. */
  lemma {:induction false} SameMap<V>(a: map<int, V>, b: map<int, V>)
    requires a.Keys == b.Keys
    requires forall k :: k in a && k in b ==> a[k] == b[k]
    ensures a == b
  {
    assert forall k :: k in a <==> k in b;
    assert forall k :: k in a ==> a[k] == b[k];
  }

  /** A node pass over nodes that all carry ids, exactly the keys of the
      shadow map, keeps the map, the counter and every id, and only sets
      each `z` to its shadow's `x`; when every `z` already equals its
      shadow's `x`, it changes nothing. */
  lemma {:induction false} SyncNodesIdle<P>(prior: map<int, Shadow<P>>, nodes: seq<Node<P>>, next: int)
    requires forall i :: 0 <= i < |nodes| ==> Truthy(nodes[i].id)
    requires NodeIdSet(nodes) == prior.Keys
    ensures forall i :: 0 <= i < |nodes| ==> nodes[i].id.Some? && nodes[i].id.value in prior
    ensures var r := SyncNodes(prior, nodes, next);
      && r.shadows.built == prior
      && r.next == next
      && (forall i :: 0 <= i < |nodes| ==> r.nodes[i] == nodes[i].(z := prior[nodes[i].id.value].x))
      && ((forall i :: 0 <= i < |nodes| ==> nodes[i].z == prior[nodes[i].id.value].x) ==> r.nodes == nodes)
  {
    var r := SyncNodes(prior, nodes, next);
    IdsAreKeys(nodes, prior.Keys);
    SyncNodesKeepsList(prior, nodes, next);
    SyncNodesKeepsMap(prior, nodes, next);
    if forall i :: 0 <= i < |nodes| ==> nodes[i].z == prior[nodes[i].id.value].x {
      ZAlreadySet(prior, nodes, r.nodes);
    }
  }

  /** A node pass over nodes whose ids are exactly the keys of the shadow
      map rebuilds that map as it was. */
  lemma {:induction false} SyncNodesKeepsMap<P>(prior: map<int, Shadow<P>>, nodes: seq<Node<P>>, next: int)
    requires forall i :: 0 <= i < |nodes| ==> Truthy(nodes[i].id)
    requires NodeIdSet(nodes) == prior.Keys
    ensures SyncNodes(prior, nodes, next).shadows.built == prior
  {
    var r := SyncNodes(prior, nodes, next);
    SyncNodesKeepsIds(prior, nodes, next);
    SyncNodesKeys(prior, nodes, next);
    SyncNodesReuses(prior, nodes, next);
    KeptKeysKeepMap(r.shadows.built, prior, r.nodes, nodes);
  }

  /** A node pass over nodes that all carry truthy ids keeps every id. */
  lemma {:induction false} SyncNodesKeepsIds<P>(prior: map<int, Shadow<P>>, nodes: seq<Node<P>>, next: int)
    requires forall i :: 0 <= i < |nodes| ==> Truthy(nodes[i].id)
    ensures var r := SyncNodes(prior, nodes, next);
      |r.nodes| == |nodes| && forall i :: 0 <= i < |r.nodes| ==> r.nodes[i].id == nodes[i].id
  {
  }

  /** A map rebuilt over the same ids as `prior`, that reuses every entry of
      `prior`, is `prior`. */
  lemma {:induction false} KeptKeysKeepMap<P>(built: map<int, Shadow<P>>, prior: map<int, Shadow<P>>, out: seq<Node<P>>, nodes: seq<Node<P>>)
    requires |out| == |nodes|
    requires forall i :: 0 <= i < |out| ==> out[i].id == nodes[i].id
    requires built.Keys == NodeIdSet(out)
    requires NodeIdSet(nodes) == prior.Keys
    requires forall k :: k in built && k in prior ==> built[k] == prior[k]
    ensures built == prior
  {
    SameIdSet(out, nodes);
    SameMap(built, prior);
  }

  /** Nodes that all carry ids, whose ids are exactly `keys`, each have
      their id in `keys`. */
  lemma {:induction false} IdsAreKeys<P>(nodes: seq<Node<P>>, keys: set<int>)
    requires forall i :: 0 <= i < |nodes| ==> Truthy(nodes[i].id)
    requires NodeIdSet(nodes) == keys
    ensures forall i :: 0 <= i < |nodes| ==> nodes[i].id.Some? && nodes[i].id.value in keys
  {
    forall i | 0 <= i < |nodes|
      ensures nodes[i].id.Some? && nodes[i].id.value in keys
    {
      assert Truthy(nodes[i].id);
      assert nodes[i].id.value in NodeIdSet(nodes);
    }
  }

  /** Lists carrying the same ids position by position carry the same id
      set. */
  lemma {:induction false} SameIdSet<P>(a: seq<Node<P>>, b: seq<Node<P>>)
    requires |a| == |b|
    requires forall i :: 0 <= i < |a| ==> a[i].id == b[i].id
    ensures NodeIdSet(a) == NodeIdSet(b)
  {
    forall k | k in NodeIdSet(a)
      ensures k in NodeIdSet(b)
    {
      var i :| 0 <= i < |a| && a[i].id.Some? && a[i].id.value == k;
      assert b[i].id.value == k;
    }
    forall k | k in NodeIdSet(b)
      ensures k in NodeIdSet(a)
    {
      var i :| 0 <= i < |b| && b[i].id.Some? && b[i].id.value == k;
      assert a[i].id.value == k;
    }
  }

  /** Setting each `z` to the value it already has changes nothing. */
  lemma {:induction false} ZAlreadySet<P>(prior: map<int, Shadow<P>>, nodes: seq<Node<P>>, out: seq<Node<P>>)
    requires |out| == |nodes|
    requires forall i :: 0 <= i < |nodes| ==> nodes[i].id.Some? && nodes[i].id.value in prior
    requires forall i :: 0 <= i < |nodes| ==> out[i] == nodes[i].(z := prior[nodes[i].id.value].x)
    requires forall i :: 0 <= i < |nodes| ==> nodes[i].z == prior[nodes[i].id.value].x
    ensures out == nodes
  {
    assert forall i :: 0 <= i < |nodes| ==> out[i] == nodes[i];
  }

  /** A link pass over links that all carry linkIDs leaves the list and
      the counter as they were. */
  lemma {:induction false} SyncLinksKeepsList<P>(prior: map<int, ShadowLink<P>>, shadows: map<int, Shadow<P>>, nodes: seq<Node<P>>,
                              links: seq<Link>, next: int)
    requires forall i :: 0 <= i < |links| ==> Truthy(links[i].linkID)
    ensures var r := SyncLinks(prior, shadows, nodes, links, next);
      r.links == links && r.next == next
  {
    var r := SyncLinks(prior, shadows, nodes, links, next);
    assert r.next == next by {
      DrawnNoneWhenStamped(LinkIds(links), |links|);
    }
    forall i | 0 <= i < |links|
      ensures r.links[i] == links[i]
    {
      SyncLinksKeepsLink(prior, shadows, nodes, links, next, i);
    }
  }

  lemma {:induction false} SyncLinksKeepsLink<P>(prior: map<int, ShadowLink<P>>, shadows: map<int, Shadow<P>>, nodes: seq<Node<P>>,
                              links: seq<Link>, next: int, i: int)
    requires 0 <= i < |links| && Truthy(links[i].linkID)
    ensures SyncLinks(prior, shadows, nodes, links, next).links[i] == links[i]
  {
    var r := SyncLinks(prior, shadows, nodes, links, next);
    var ids := LinkIds(links);
    var st := Stamp(ids, next);
    assert ids[i] == links[i].linkID;
    assert st.ids[i] == links[i].linkID.value;
    assert r.links[i].linkID == links[i].linkID;
  }

  /** A link pass over links that all carry linkIDs, exactly the keys of
      the shadow-link map, changes nothing. */
  lemma {:induction false} SyncLinksIdle<P>(prior: map<int, ShadowLink<P>>, shadows: map<int, Shadow<P>>, nodes: seq<Node<P>>,
                         links: seq<Link>, next: int)
    requires forall i :: 0 <= i < |links| ==> Truthy(links[i].linkID)
    requires LinkIdSet(links) == prior.Keys
    ensures var r := SyncLinks(prior, shadows, nodes, links, next);
      r.links == links && r.shadows.built == prior && r.next == next
  {
    var r := SyncLinks(prior, shadows, nodes, links, next);
    SyncLinksKeepsList(prior, shadows, nodes, links, next);
    var built := r.shadows.built;
    assert built.Keys == prior.Keys by {
      SyncLinksKeys(prior, shadows, nodes, links, next);
    }
    SyncLinksReuses(prior, shadows, nodes, links, next);
    SameMap(built, prior);
  }

  /** Ticking again over the lists a tick left behind, with no node or
      link added, changes no id, no linkID, no counter, no shadow and no
      shadow link; it only sets each node's `z` to its shadow's `x`. With
      distinct ids every `z` already is its shadow's `x`, so the second
      tick changes nothing at all. */
  lemma {:induction false} SecondTickStable<P>(s: Sync<P>, nodes: seq<Node<P>>, links: seq<Link>)
    requires Wf(s)
    ensures var r := Tick(s, nodes, links);
      var r2 := Tick(r.state, r.nodes, r.links);
      && r2.state == r.state
      && r2.links == r.links
      && |r2.nodes| == |r.nodes|
      && (forall i :: 0 <= i < |nodes| ==> r2.nodes[i] == r.nodes[i].(z := r.state.zNodes[r.nodes[i].id.value].x))
      && (DistinctIds(r.nodes) ==> r2.nodes == r.nodes)
  {
    var r := Tick(s, nodes, links);
    TickLeavesTruthyIds(s, nodes, links);
    TickMirrorsLists(s, nodes, links);
    var ns := SyncNodes(r.state.zNodes, r.nodes, r.state.nodeID);
    TickParts(r.state, r.nodes, r.links);
    SyncNodesIdle(r.state.zNodes, r.nodes, r.state.nodeID);
    SyncLinksIdle(r.state.zLinks, ns.shadows.built, ns.nodes, r.links, r.state.linkID);
    if DistinctIds(r.nodes) {
      TickWritesBackZ(s, nodes, links);
    }
  }

  /** `r` lists the values of `m` along the key sequence `ks`, which
      names every key of `m` exactly once: each value appears as often as
      keys map to it, and nothing else appears. */
  ghost predicate ListsValues<V>(m: map<int, V>, ks: seq<int>, r: seq<V>) {
    && |ks| == |m| && |r| == |ks|
    && KeyOrder.Distinct(ks)
    && (forall k {:trigger k in ks} :: k in m ==> k in ks)
    && (forall i {:trigger r[i]} :: 0 <= i < |r| ==> ks[i] in m && r[i] == m[ks[i]])
    && (forall k :: k in m ==> m[k] in r)
  }

  /** `d3.values` lists the value of each key of the map once, in the
      enumeration order of the keys. */
  lemma {:induction false} ValuesCover<V>(m: map<int, V>, inserted: seq<int>)
    requires Ordered(m, inserted)
    ensures ListsValues(m, EnumeratedKeys(m, inserted), Values(m, inserted))
  {
    var r := Values(m, inserted);
    var ks := EnumeratedKeys(m, inserted);
    assert forall i :: 0 <= i < |ks| ==> r[i] == m[ks[i]];
    forall k | k in m
      ensures m[k] in r
    {
      assert k in ks;
      var i :| 0 <= i < |ks| && ks[i] == k;
      assert r[i] == m[k];
    }
  }

  /** The arrays pushed into the Z engine hold the shadow of each current
      id and the shadow link of each current linkID, each exactly once. */
  lemma {:induction false} TickFeedsZEngine<P>(s: Sync<P>, nodes: seq<Node<P>>, links: seq<Link>)
    ensures var r := Tick(s, nodes, links);
      && ListsValues(r.state.zNodes, EnumeratedKeys(r.state.zNodes, r.zNodeOrder), ZEngineNodes(r))
      && ListsValues(r.state.zLinks, EnumeratedKeys(r.state.zLinks, r.zLinkOrder), ZEngineLinks(r))
  {
    var r := Tick(s, nodes, links);
    ValuesCover(r.state.zNodes, r.zNodeOrder);
    ValuesCover(r.state.zLinks, r.zLinkOrder);
  }

  /** When every key is an array index, `d3.values` lists the values in
      ascending key order. */
  lemma {:induction false} ValuesAscending<V>(m: map<int, V>, inserted: seq<int>)
    requires Ordered(m, inserted)
    requires forall k :: k in m ==> KeyOrder.IsArrayIndex(k)
    ensures var ks := EnumeratedKeys(m, inserted);
      && KeyOrder.Sorted(ks)
      && forall i {:trigger Values(m, inserted)[i]} :: 0 <= i < |ks| ==> Values(m, inserted)[i] == m[ks[i]]
  {
    var ks := EnumeratedKeys(m, inserted);
    var n := |KeyOrder.Select(inserted, true)|;
    assert ks[..n] == ks;
  }

  /** A tick whose ids are all array indices hands the shadow nodes to the
      Z engine sorted by id. */
  lemma {:induction false} TickFeedsNodesById<P>(s: Sync<P>, nodes: seq<Node<P>>, links: seq<Link>)
    requires Wf(s)
    requires forall k :: k in Tick(s, nodes, links).state.zNodes ==> KeyOrder.IsArrayIndex(k)
    ensures var zs := ZEngineNodes(Tick(s, nodes, links));
      forall i, j :: 0 <= i < j < |zs| ==> zs[i].id <= zs[j].id
  {
    var r := Tick(s, nodes, links);
    TickPreservesWf(s, nodes, links);
    ValuesAscending(r.state.zNodes, r.zNodeOrder);
  }
}
